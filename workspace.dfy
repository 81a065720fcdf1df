/** The page's shared state and the handlers that change it: the buttons of
    assets/js/task-ui-controls.js, the node clicks of assets/js/task-render.js, the
    outline's context menu and events in assets/js/task-tree-jstree.js, the initial
    load of assets/js/task-data-load.js and the import of assets/export/export-panel.js.
    Every handler that changes the tree ends with `render()`, whose first step
    recomputes percent and status; so each method leaves `data` recomputed. */
module Controls {
  import opened Basics
  import opened TaskModel
  import opened Identity
  import opened Lookup
  import opened PlainObject
  import opened TreeEdit
  import opened Arena
  import opened Moves

  // ---------------------------------------------------------------- tree facts

  /** Recomputing keeps the stamps and the uids, and makes the tree consistent. */
  lemma RecomputedValid(t: Task, c: nat)
    requires Stamped(t) && Distinct(t) && IssuedBy(t, c)
    ensures var r := Recomputed(t);
      Stamped(r) && Distinct(r) && IssuedBy(r, c) && Consistent(r)
  {
    RecomputeKeepsUids(t);
    RecomputeEstablishesConsistency(t);
  }

  /** A move made in the diagram keeps the workspace invariant once rendered. */
  lemma MovedValid(t: Task, sel: Uid, target: Uid, c: nat)
    requires Stamped(t) && Distinct(t) && IssuedBy(t, c) && target in UidBag(t)
    requires DiagramMove(t, sel, target).1 == Moved
    ensures var r := Recomputed(DiagramMove(t, sel, target).0);
      Stamped(r) && Distinct(r) && IssuedBy(r, c) && Consistent(r)
  {
    DiagramMoveFacts(t, sel, target);
    RecomputedValid(DiagramMove(t, sel, target).0, c);
  }

  /** A tree without uids, stamped from any counter, has every uid once and only uids
      the counter has issued. */
  lemma StampFresh(t: Task, c: nat)
    requires UidBag(t) == multiset{}
    ensures var (r, c') := Stamp(t, c);
      Stamped(r) && Distinct(r) && IssuedBy(r, c')
  {
    StampFacts(t, c);
    StampKeepsDistinct(t, c);
  }

  /** Detaching keeps the tree stamped with distinct uids and adds no uid. */
  lemma DetachKeepsTree(t: Task, x: Uid)
    requires Stamped(t) && Distinct(t)
    ensures Stamped(Detach(t, x)) && Distinct(Detach(t, x))
    ensures UidBag(Detach(t, x)) <= UidBag(t)
    ensures FindParentByUid(t, x).Some? ==> x !in UidBag(Detach(t, x))
    ensures FindParentByUid(t, x).None? ==> Detach(t, x) == t
  {
    if FindParentByUid(t, x).Some? {
      var pn := FindParentByUid(t, x).value;
      FindParentByUidSound(t, x);
      StampedNodes(t, pn);
      var k :| 0 <= k < |pn.children| && pn.children[k].uid == Some(x);
      ChildIsNode(t, pn, k);
      NodeBag(t, pn.children[k]);
      FindByUidFound(t, x);
      var m := FindByUid(t, x).value;
      DetachRecords(t, x, m, pn);
      assert UidBag(Detach(t, x))[x] + UidBag(m)[x] == UidBag(t)[x];
    }
  }

  /** Detaching a node keeps the workspace invariant once rendered. */
  lemma DetachedValid(t: Task, x: Uid, c: nat)
    requires Stamped(t) && Distinct(t) && IssuedBy(t, c)
    ensures var r := Recomputed(Detach(t, x));
      Stamped(r) && Distinct(r) && IssuedBy(r, c) && Consistent(r)
  {
    DetachKeepsTree(t, x);
    RecomputedValid(Detach(t, x), c);
  }

  /** Adding the Create button's new child keeps the workspace invariant once rendered. */
  lemma AddedValid(t: Task, parent: Uid, c: nat)
    requires Stamped(t) && Distinct(t) && IssuedBy(t, c)
    ensures var (child, next) := EnsureUid(NewTask("Task"), c);
      var r := Recomputed(MapAt(t, parent, Append(child)));
      Stamped(r) && Distinct(r) && IssuedBy(r, next) && Consistent(r)
  {
    var (child, next) := EnsureUid(NewTask("Task"), c);
    assert UidBag(child) == multiset{next};
    AddChildRecords(t, parent, Append(child));
    RecomputedValid(MapAt(t, parent, Append(child)), next);
  }

  /** The remove action detaches the node and then jsTree's `delete_node` event
      detaches it again: the second detach finds nothing to do. */
  lemma DetachIdempotent(t: Task, x: Uid)
    requires Stamped(t) && Distinct(t)
    ensures Detach(Detach(t, x), x) == Detach(t, x)
  {
    DetachKeepsTree(t, x);
    if FindParentByUid(t, x).Some? {
      DetachNothing(Detach(t, x), x);
    }
  }

  /** A node without children that carries `u` has the one record of its own. */
  lemma LeafRecords(c: Task, u: Uid)
    requires c.uid == Some(u) && c.children == []
    ensures UidBag(c) == multiset{u} && Stamped(c) && Distinct(c)
    ensures Records(c) == map[u := RecOf(c)]
  {
    assert UidBag(c) == multiset{u};
    FindByUidFound(c, u);
  }

  /** The records after a node `p` gains the new node `u`. */
  lemma AddedRecordFacts(r: map<Uid, Rec>, p: Uid, np: Rec, u: Uid, nu: Rec)
    requires p in r && u !in r
    ensures var g := r[p := np] + map[u := nu];
      && g.Keys == r.Keys + {u} && g[p] == np && g[u] == nu
      && forall v :: v in r && v != p ==> g[v] == r[v]
  {
  }

  /** The child that the Create button or the Create subfolder action adds under a node
      of the tree becomes its last child; the new node's record is the child's own and
      every other record is unchanged. */
  lemma CreateChildLast(t: Task, parent: Uid, c: Task)
    requires Stamped(t) && Distinct(t) && parent in Records(t)
    requires c.uid.Some? && c.children == [] && c.uid.value !in UidBag(t)
    ensures var r := MapAt(t, parent, Append(c));
      && Stamped(r) && Distinct(r) && UidBag(r) == UidBag(t) + multiset{c.uid.value}
      && Records(r).Keys == Records(t).Keys + {c.uid.value}
      && Records(r)[parent] == Records(t)[parent].(kids := Records(t)[parent].kids + [c.uid.value])
      && Records(r)[c.uid.value] == RecOf(c)
      && forall v :: v in Records(t) && v != parent ==> Records(r)[v] == Records(t)[v]
  {
    var u := c.uid.value;
    LeafRecords(c, u);
    AddChildRecords(t, parent, Append(c));
    var r0 := Records(t);
    SpliceAtEnd(r0[parent].kids, |r0[parent].kids|, u);
    var np := r0[parent].(kids := r0[parent].kids + [u]);
    assert Records(MapAt(t, parent, Append(c))) == r0[parent := np] + map[u := RecOf(c)];
    AddedRecordFacts(r0, parent, np, u, RecOf(c));
  }

  /** The default node of the Create subfolder action, under a fresh uid. */
  function NewFolder(u: Uid): (r: Task)
    ensures r.name == "New folder" && !r.status && r.percent == 0.0 && r.children == []
    ensures r.descricao == "" && r.url == "" && !r.collapsed && r.uid == Some(u)
  {
    Task("New folder", false, 0.0, [], "", "", false, Some(u))
  }

  /** The Update button's status change is refused on a node that has children when the
      checkbox differs from the node's status. */
  predicate UpdateRefused(n: Task, checked: bool)
  {
    |n.children| > 0 && checked != n.status
  }

  /** On a leaf the checkbox decides the status, and `render` turns it into 0 or 100;
      on a node with children the status is left to the completion pass. */
  lemma UpdateDecidesLeaf(n: Task, nameInput: string, descInput: string, checked: bool)
    ensures var r := Apply(Update(nameInput, descInput, checked), n);
      && r.name == (if nameInput == "" then n.name else nameInput)
      && r.descricao == descInput
      && (IsLeaf(n) ==> Recomputed(r).status == checked && Recomputed(r).percent == LeafPercent(checked))
      && (!IsLeaf(n) ==> Recomputed(r).status == Recomputed(n).status && Recomputed(r).percent == Recomputed(n).percent)
      && (UpdateRefused(n, checked) ==> r.status == n.status)
  {
    var r := Apply(Update(nameInput, descInput, checked), n);
    if !IsLeaf(n) {
      assert Recomputed(r).children == Recomputed(n).children;
    }
  }

  // ---------------------------------------------------------------- the workspace

  /** The globals `data`, `selectedNode` and `moveMode`, and the counter behind the uids.
      A selection is held by uid; after the outline removes the selected node the uid
      is no longer in the tree, and edits through it change nothing. */
  class Workspace {
    var data: Task
    var selected: Option<Uid>
    var moveMode: bool
    var counter: nat

    /** Every node is stamped, no uid occurs twice, every uid was issued by the counter,
        and percent and status are the ones `render` computes. */
    ghost predicate Valid()
      reads this
    {
      Stamped(data) && Distinct(data) && IssuedBy(data, counter) && Consistent(data)
    }

    /** The first step of `render()`: `computePercentFromStatus(data)`. */
    method Render()
      modifies this`data
      ensures data == Recomputed(old(data))
    {
      var r, p := ComputePercent(data);
      data := r;
    }

    /** The page load: the fetched JSON converted by `plainObjectToTask`, or, when the
        fetch or the conversion fails, `new Task("Project")`; stamped from a counter that
        starts at the clock, recomputed, nothing selected. */
    constructor Load(fetched: Option<Json>, clock: nat)
      ensures Valid() && selected == None && !moveMode
      ensures var root := if fetched.Some? && FromPlain(fetched.value).Some? then FromPlain(fetched.value).value
                          else DefaultRoot();
        data == Recomputed(Stamp(root, clock).0) && counter == Stamp(root, clock).1
    {
      var root := DefaultRoot();
      if fetched.Some? {
        var converted := FromPlain(fetched.value);
        if converted.Some? {
          root := converted.value;
          FromPlainNoUids(fetched.value);
        }
      }
      var stamped, next := AssignUids(root, clock);
      StampFresh(root, clock);
      RecomputedValid(stamped, next);
      var r, p := ComputePercent(stamped);
      data := r;
      counter := next;
      selected := None;
      moveMode := false;
    }

    /** Importing a JSON file: `None` for text that `JSON.parse` rejects. A parse or
        conversion error is reported and changes nothing; otherwise the converted tree
        replaces the old one and the selection is cleared. */
    method Import(parsed: Option<Json>) returns (ok: bool)
      requires Valid()
      modifies this
      ensures Valid() && moveMode == old(moveMode)
      ensures ok == (parsed.Some? && FromPlain(parsed.value).Some?)
      ensures ok ==>
        var (r, c) := Stamp(FromPlain(parsed.value).value, old(counter));
        data == Recomputed(r) && counter == c && selected == None
      ensures !ok ==> data == old(data) && counter == old(counter) && selected == old(selected)
    {
      ok := false;
      if parsed.None? {
        return;
      }
      var converted := FromPlain(parsed.value);
      if converted.None? {
        return;
      }
      FromPlainNoUids(parsed.value);
      var stamped, next := AssignUids(converted.value, counter);
      StampFresh(converted.value, counter);
      RecomputedValid(stamped, next);
      data := stamped;
      counter := next;
      selected := None;
      Render();
      ok := true;
    }

    /** The Create button: with a node selected, a new `Task("Task")` with a fresh uid
        is pushed as the node's last child. */
    method CreateChild()
      requires Valid()
      modifies this
      ensures Valid() && selected == old(selected) && moveMode == old(moveMode)
      ensures old(selected).None? ==> data == old(data) && counter == old(counter)
      ensures old(selected).Some? ==>
        var (child, c) := EnsureUid(NewTask("Task"), old(counter));
        && counter == c
        && data == Recomputed(MapAt(old(data), old(selected).value, Append(child)))
    {
      if selected.None? {
        return;
      }
      var stamped := EnsureUid(NewTask("Task"), counter);
      var child, next := stamped.0, stamped.1;
      assert UidBag(child) == multiset{next};
      var t := MapAt(data, selected.value, Append(child));
      AddedValid(data, selected.value, counter);
      data := t;
      counter := next;
      Render();
    }

    /** The Update button: the name (kept when the input is empty) and the description
        are written; the checkbox sets the status of a leaf, and on a node with
        children a different checkbox value is refused and the status is kept. */
    method UpdateSelected(nameInput: string, descInput: string, checked: bool) returns (refused: bool)
      requires Valid()
      modifies this`data
      ensures Valid()
      ensures old(selected).None? || FindByUid(old(data), old(selected).value).None? ==>
        data == old(data) && !refused
      ensures old(selected).Some? && FindByUid(old(data), old(selected).value).Some? ==>
        && refused == UpdateRefused(FindByUid(old(data), old(selected).value).value, checked)
        && data == Recomputed(MapAt(old(data), old(selected).value, Update(nameInput, descInput, checked)))
    {
      refused := false;
      if selected.None? {
        return;
      }
      var found := FindByUid(data, selected.value);
      if found.None? {
        return;
      }
      refused := UpdateRefused(found.value, checked);
      var t := MapAt(data, selected.value, Update(nameInput, descInput, checked));
      FieldEditRecords(data, selected.value, Update(nameInput, descInput, checked));
      RecomputedValid(t, counter);
      data := t;
      Render();
    }

    /** The Delete button: the root is refused; otherwise the selected node is filtered
        out of the children of the parent `findParent` finds, and the selection is
        cleared. A selection that is no longer in the tree has no parent, and nothing
        happens. */
    method Delete() returns (refused: bool)
      requires Valid()
      modifies this`data, this`selected
      ensures Valid()
      ensures refused == (old(selected).Some? && old(data).uid == old(selected))
      ensures refused || old(selected).None? || old(selected).value !in UidBag(old(data)) ==>
        data == old(data) && selected == old(selected)
      ensures !refused && old(selected).Some? && old(selected).value in UidBag(old(data)) ==>
        data == Recomputed(Detach(old(data), old(selected).value)) && selected == None
    {
      refused := false;
      if selected.None? {
        return;
      }
      var sel := selected.value;
      if data.uid == Some(sel) {
        refused := true;
        return;
      }
      var found := FindByUid(data, sel);
      FindByUidFound(data, sel);
      if found.None? {
        return;
      }
      FindParentMatchesUid(data, found.value, sel);
      NonRootHasParent(data, sel);
      var parent := FindParent(data, found.value);
      FindParentByUidSound(data, sel);
      StampedNodes(data, parent.value);
      var t := MapAt(data, parent.value.uid.value, Drop(sel));
      assert t == Detach(data, sel);
      DetachedValid(data, sel, counter);
      data := t;
      selected := None;
      Render();
    }

    /** The Move button: it needs a selection other than the root, and then turns move
        mode on. */
    method BeginMove() returns (refused: bool)
      requires Valid()
      modifies this`moveMode
      ensures Valid()
      ensures refused == (old(selected).None? || data.uid == old(selected))
      ensures moveMode == (old(moveMode) || !refused)
    {
      if selected.None? || data.uid == selected {
        refused := true;
        return;
      }
      refused := false;
      moveMode := true;
    }

    /** The move branch of the node click handler, with `sel` selected and `target`
        clicked: the root is refused, the ancestor walk refuses a target inside the
        selected node's subtree, a node without a parent aborts, and otherwise the node
        is filtered out of its parent's children and pushed onto the target's. */
    method MoveSelected(sel: Uid, target: Uid) returns (outcome: ClickOutcome)
      requires Valid() && target in UidBag(data)
      modifies this`data
      ensures Valid()
      ensures var (r, out) := DiagramMove(old(data), sel, target);
        outcome == out && data == (if out == Moved then Recomputed(r) else old(data))
    {
      if data.uid == Some(sel) {
        return RootRefused;
      }
      var isDescendant := AncestorWalk(data, sel, target);
      if isDescendant {
        return IntoOwnSubtree;
      }
      var found := FindByUid(data, sel);
      var oldParent := if found.Some? then FindParent(data, found.value) else None;
      if oldParent.None? || oldParent.value.uid.None? {
        return NoParent;
      }
      var t := MapAt(data, oldParent.value.uid.value, Drop(sel));
      t := MapAt(t, target, Append(found.value));
      assert (t, Moved) == DiagramMove(data, sel, target);
      MovedValid(data, sel, target, counter);
      data := t;
      Render();
      outcome := Moved;
    }

    /** A click on the diagram node carrying `target`. In move mode with a selection the
        selected node is moved under the target; otherwise the click selects the target.
        Move mode is off afterwards on every path. */
    method ClickNode(target: Uid) returns (outcome: Option<ClickOutcome>)
      requires Valid() && target in UidBag(data)
      modifies this`data, this`selected, this`moveMode
      ensures Valid() && !moveMode
      ensures old(moveMode) && old(selected).Some? ==>
        var (r, out) := DiagramMove(old(data), old(selected).value, target);
        && outcome == Some(out) && selected == old(selected)
        && data == (if out == Moved then Recomputed(r) else old(data))
      ensures !(old(moveMode) && old(selected).Some?) ==>
        outcome == None && selected == Some(target) && data == old(data)
    {
      if moveMode && selected.Some? {
        var out := MoveSelected(selected.value, target);
        moveMode := false;
        outcome := Some(out);
        return;
      }
      selected := Some(target);
      moveMode := false;
      ConsistentIsFixpoint(data);
      Render();
      outcome := None;
    }

    /** Selecting the node carrying `u` in the outline (the `select_node` event and the
        Edit action): a uid that is found becomes the selection; one that is not found
        changes nothing. */
    method SelectFromOutline(u: Uid) returns (found: bool)
      requires Valid()
      modifies this`selected
      ensures Valid()
      ensures found <==> u in UidBag(data)
      ensures selected == if found then Some(u) else old(selected)
    {
      FindByUidFound(data, u);
      found := FindByUid(data, u).Some?;
      if found {
        selected := Some(u);
      }
    }

    /** A double click flips the node's `collapsed` flag. */
    method ToggleNode(target: Uid)
      requires Valid()
      modifies this`data
      ensures Valid()
      ensures data == Recomputed(MapAt(old(data), target, ToggleCollapsed))
    {
      var t := MapAt(data, target, ToggleCollapsed);
      FieldEditRecords(data, target, ToggleCollapsed);
      RecomputedValid(t, counter);
      data := t;
      Render();
    }

    /** The outline's Create subfolder action on the node `parent`: a uid is generated
        in any case; a "New folder" node with it is pushed as the last child when the
        parent is in the tree, and a parent that is not found changes nothing else. */
    method CreateSubfolder(parent: Uid)
      requires Valid()
      modifies this`data, this`counter
      ensures Valid() && counter == old(counter) + 1
      ensures data == Recomputed(MapAt(old(data), parent, Append(NewFolder(counter))))
    {
      counter := counter + 1;
      var folder := NewFolder(counter);
      assert UidBag(folder) == multiset{counter};
      var t := MapAt(data, parent, Append(folder));
      AddChildRecords(data, parent, Append(folder));
      RecomputedValid(t, counter);
      data := t;
      Render();
    }

    /** The `rename_node` event: the node carrying `x` gets the new name. */
    method RenameNode(x: Uid, name: string)
      requires Valid()
      modifies this`data
      ensures Valid()
      ensures data == Recomputed(MapAt(old(data), x, SetName(name)))
    {
      var t := MapAt(data, x, SetName(name));
      FieldEditRecords(data, x, SetName(name));
      RecomputedValid(t, counter);
      data := t;
      Render();
    }

    /** The `delete_node` event: the node carrying `x` is filtered out of the children of
        the parent `findParentByUid` finds; the root has none and stays. */
    method DeleteNodeEvent(x: Uid)
      requires Valid()
      modifies this`data
      ensures Valid()
      ensures data == Recomputed(Detach(old(data), x))
    {
      var t := Detach(data, x);
      DetachKeepsTree(data, x);
      RecomputedValid(t, counter);
      data := t;
      Render();
    }

    /** The outline's Delete action: the root is refused; otherwise the node is detached
        and jsTree's `delete_node` event follows, detaching it again. The selection is
        left as it is. */
    method RemoveAction(x: Uid) returns (refused: bool)
      requires Valid()
      modifies this`data
      ensures Valid()
      ensures refused == (old(data).uid == Some(x))
      ensures refused ==> data == old(data)
      ensures !refused ==> data == Recomputed(Detach(old(data), x))
    {
      if data.uid == Some(x) {
        refused := true;
        return;
      }
      refused := false;
      var t := Detach(data, x);
      DetachIdempotent(data, x);
      DetachKeepsTree(data, x);
      data := Detach(t, x);
      RecomputedValid(data, counter);
      Render();
    }

    /** The `move_node` event after a drag in the outline, as `DragMove` corrects it: the
        node leaves its actual parent and is spliced into the drop target's children at
        `pos` (`None` is the outline's top level, the data root). */
    method MoveNodeEvent(x: Uid, newParent: Option<Uid>, pos: nat)
      requires Valid()
      modifies this`data
      ensures Valid()
      ensures data == Recomputed(DragMove(old(data), x, newParent, pos))
    {
      var t := DragMove(data, x, newParent, pos);
      DragMoveFacts(data, x, newParent, pos);
      RecomputedValid(t, counter);
      data := t;
      Render();
    }
  }
}
