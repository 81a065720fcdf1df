/** The two ways of moving a node: dragging it in the outline (the `move_node`
    handler of assets/js/task-tree-jstree.js) and the move mode of the diagram (the
    node click handler of assets/js/task-render.js). */
module Moves {
  import opened Basics
  import opened TaskModel
  import opened Identity
  import opened Lookup
  import opened TreeEdit
  import opened Arena

  // ---------------------------------------------------------------- outline drag

  /** The `move_node` handler as written. `oldParent` and `newParent` are the outline's
      `old_parent` and `parent`, `None` for its top level `'#'`. Every node is looked up
      before anything changes; the old parent comes from the outline, and a top-level
      old parent filters nothing. A new parent that is not found throws after the
      filter, so the node is dropped. A moved node that is not found is left out. */
  function MoveNodeAsWritten(t: Task, x: Uid, oldParent: Option<Uid>, newParent: Option<Uid>, pos: nat): Task
  {
    var moved := FindByUid(t, x);
    var dest := if newParent.Some? then FindByUid(t, newParent.value) else Some(t);
    var t1 :=
      if oldParent.Some? && FindByUid(t, oldParent.value).Some? then MapAt(t, oldParent.value, Drop(x))
      else t;
    if dest.None? || moved.None? then t1
    else if newParent.None? then t1.(children := Splice(t1.children, pos, moved.value))
    else MapAt(t1, newParent.value, Insert(moved.value, pos))
  }

  /** The root with two leaves, uids 1, 2 and 3. */
  function TwoLeaves(): Task
  {
    Task("R", false, 0.0, [Leaf("A", 2), Leaf("B", 3)], "", "", false, Some(1))
  }

  function Leaf(name: string, u: Uid): Task
  {
    Task(name, false, 0.0, [], "", "", false, Some(u))
  }

  lemma FirstDrag()
    ensures MoveNodeAsWritten(TwoLeaves(), 2, Some(1), None, 1) == TwoLeaves().(children := [Leaf("B", 3), Leaf("A", 2)])
    ensures Distinct(TwoLeaves())
  {
    var a, b := Leaf("A", 2), Leaf("B", 3);
    var t := TwoLeaves();
    assert UidBag(a) == multiset{2} && UidBag(b) == multiset{3};
    assert UidBagAll([b]) == multiset{3};
    assert UidBagAll([a, b]) == multiset{2, 3};
    assert UidBag(t) == multiset{1, 2, 3};
    assert FindByUid(t, 2) == Some(a);
    assert FindByUid(t, 1) == Some(t);
    assert Without([a, b], 2) == [b];
    assert MapAt(t, 1, Drop(2)) == t.(children := [b]);
    assert Splice([b], 1, a) == [b, a];
  }

  lemma SecondDrag()
    ensures var t1 := TwoLeaves().(children := [Leaf("B", 3), Leaf("A", 2)]);
      && Distinct(t1)
      && MoveNodeAsWritten(t1, 2, None, Some(3), 0)
         == t1.(children := [Leaf("B", 3).(children := [Leaf("A", 2)]), Leaf("A", 2)])
  {
    var a, b := Leaf("A", 2), Leaf("B", 3);
    var t1 := TwoLeaves().(children := [b, a]);
    assert UidBag(a) == multiset{2} && UidBag(b) == multiset{3};
    assert UidBagAll([a]) == multiset{2};
    assert UidBagAll([b, a]) == multiset{2, 3};
    assert UidBag(t1) == multiset{1, 2, 3};
    assert FindByUid(t1, 2) == Some(a) by {
      assert FindByUid(b, 2) == None;
      assert [b, a][1..] == [a];
      assert FindInChildren([a], 2) == Some(a);
    }
    assert FindByUid(t1, 3) == Some(b) by {
      assert FindByUid(b, 3) == Some(b);
    }
    var b2 := b.(children := [a]);
    assert MapAt(b, 3, Insert(a, 0)) == b2 by {
      assert Splice([], 0, a) == [a];
    }
    assert MapAt(a, 3, Insert(a, 0)) == a by {
      MapAtAbsent(a, 3, Insert(a, 0));
    }
    assert MapAt(t1, 3, Insert(a, 0)) == t1.(children := [b2, a]);
  }

  /** Drag A to the outline's top level (the handler puts it under the data root, while
      the outline shows it beside the root), then drag it into B: the second event has
      `old_parent` `'#'`, nothing is filtered, and A ends up in the tree twice. */
  lemma TopLevelDragDuplicates()
    ensures Distinct(TwoLeaves())
    ensures var t1 := MoveNodeAsWritten(TwoLeaves(), 2, Some(1), None, 1);
      && Distinct(t1)
      && UidBag(MoveNodeAsWritten(t1, 2, None, Some(3), 0))[2] == 2
      && !Distinct(MoveNodeAsWritten(t1, 2, None, Some(3), 0))
  {
    FirstDrag();
    SecondDrag();
    var a, b := Leaf("A", 2), Leaf("B", 3);
    var b2 := b.(children := [a]);
    var t2 := TwoLeaves().(children := [b2, a]);
    assert UidBag(a) == multiset{2} && UidBag(b2) == multiset{3, 2};
    assert UidBagAll([a]) == multiset{2};
    assert UidBagAll([b2, a]) == multiset{2, 2, 3};
    assert UidBag(t2)[2] == 2;
  }

  /** After the first drag the outline shows A beside R at its top level. Dragging R
      after A is then a top-level move of the data root itself: the handler splices the
      root into its own children. On the value tree that is a copy of the root inside
      the root, and uid 1 appears twice. */
  lemma RootDragAfterFirst()
    ensures var t1 := MoveNodeAsWritten(TwoLeaves(), 2, Some(1), None, 1);
      var r := MoveNodeAsWritten(t1, 1, None, None, 1);
      && |r.children| == 3 && r.children[1] == t1
      && UidBag(r)[1] == 2 && !Distinct(r)
  {
    FirstDrag();
    var a, b := Leaf("A", 2), Leaf("B", 3);
    var t1 := TwoLeaves().(children := [b, a]);
    assert FindByUid(t1, 1) == Some(t1);
    var r := t1.(children := [b, t1, a]);
    assert Splice([b, a], 1, t1) == [b, t1, a];
    assert MoveNodeAsWritten(t1, 1, None, None, 1) == r;
    assert UidBag(a) == multiset{2} && UidBag(b) == multiset{3};
    assert UidBagAll([a]) == multiset{2};
    assert UidBagAll([b, a]) == multiset{2, 3};
    assert UidBag(t1) == multiset{1, 2, 3};
    assert UidBagAll([t1, a]) == multiset{1, 2, 2, 3};
    assert UidBagAll([b, t1, a]) == multiset{1, 2, 2, 3, 3};
    assert UidBag(r)[1] == 2;
  }

  /** The uid `d` stands for the node the outline drops onto: `parent`, or the data
      root for the top level. */
  function DropTarget(t: Task, newParent: Option<Uid>): Uid
  {
    if newParent.Some? then newParent.value else UidOf(t)
  }

  /** Whether a drag of `x` onto `d` moves anything: `x` is a node other than the root,
      and `d` is a node outside the subtree of `x`. */
  predicate DragAllowed(t: Task, x: Uid, d: Uid)
  {
    match FindByUid(t, x)
    case None => false
    case Some(m) => FindParentByUid(t, x).Some? && FindByUid(t, d).Some? && FindByUid(m, d).None?
  }

  /** The drag as evidently intended: the node leaves the parent it actually has, found
      by uid as the remove action finds it, and is spliced in under the drop target. A
      drag of the root, onto a missing node, or into the dragged node's own subtree
      changes nothing. */
  function DragMove(t: Task, x: Uid, newParent: Option<Uid>, pos: nat): Task
  {
    var d := DropTarget(t, newParent);
    if DragAllowed(t, x, d) then Relocate(t, x, d, Insert(FindByUid(t, x).value, pos))
    else t
  }

  /** A drag keeps the tree a tree with the same nodes; an allowed one changes only the
      kid lists of the old parent and of the drop target, and leaves the node with the
      drop target as its one parent. */
  lemma DragMoveFacts(t: Task, x: Uid, newParent: Option<Uid>, pos: nat)
    requires Stamped(t) && Distinct(t)
    ensures var r := DragMove(t, x, newParent, pos);
      && Stamped(r) && Distinct(r) && UidBag(r) == UidBag(t)
      && (!DragAllowed(t, x, DropTarget(t, newParent)) ==> r == t)
    ensures DragAllowed(t, x, DropTarget(t, newParent)) ==>
      var r := DragMove(t, x, newParent, pos);
      var d := DropTarget(t, newParent);
      var pn := FindParentByUid(t, x).value;
      && UidOf(pn) in Records(t) && d in Records(t)
      && Records(r) == MovedRecords(Records(t), x, UidOf(pn), d, Insert(FindByUid(t, x).value, pos))
      && FindParentByUid(r, x).Some? && FindParentByUid(r, x).value.uid == Some(d)
  {
    var d := DropTarget(t, newParent);
    if DragAllowed(t, x, d) {
      var m := FindByUid(t, x).value;
      var pn := FindParentByUid(t, x).value;
      FindByUidFound(t, x);
      FindByUidFound(t, d);
      FindByUidFound(m, d);
      RelocateRecords(t, x, m, pn, d, Insert(m, pos));
      MovedHasOneParent(t, x, m, pn, d, Insert(m, pos));
    }
  }

  /** The corrected drag never moves the root, wherever it is dropped: the root has no
      parent to leave. */
  lemma RootDragRefused(t: Task, newParent: Option<Uid>, pos: nat)
    requires Stamped(t) && Distinct(t)
    ensures DragMove(t, UidOf(t), newParent, pos) == t
  {
    RootHasNoParent(t, UidOf(t));
  }

  /** When the outline's `old_parent` is the node's real parent, the handler as written
      and the corrected drag agree on every allowed drag. */
  lemma AsWrittenAgreesWithParent(t: Task, x: Uid, p: Uid, newParent: Option<Uid>, pos: nat)
    requires Stamped(t) && Distinct(t)
    requires FindParentByUid(t, x).Some? && FindParentByUid(t, x).value.uid == Some(p)
    requires DragAllowed(t, x, DropTarget(t, newParent))
    ensures MoveNodeAsWritten(t, x, Some(p), newParent, pos) == DragMove(t, x, newParent, pos)
  {
    var pn := FindParentByUid(t, x).value;
    FindParentByUidSound(t, x);
    FindUnique(t, pn, p);
    var t1 := MapAt(t, p, Drop(x));
    assert Detach(t, x) == t1;
    MapAtUid(t, p, Drop(x));
    if newParent.None? {
      assert MapAt(t1, UidOf(t), Insert(FindByUid(t, x).value, pos))
        == t1.(children := Splice(t1.children, pos, FindByUid(t, x).value));
    }
  }

  /** The top-level old parent is what separates the two: with `old_parent` `'#'` the
      handler as written skips the filter, and the corrected drag still detaches. */
  lemma CorrectedDragKeepsDistinct()
    ensures var t1 := DragMove(TwoLeaves(), 2, None, 1);
      Distinct(DragMove(t1, 2, Some(3), 0))
  {
    TopLevelDragDuplicates();
    var t := TwoLeaves();
    assert Stamped(t);
    DragMoveFacts(t, 2, None, 1);
    var t1 := DragMove(t, 2, None, 1);
    DragMoveFacts(t1, 2, Some(3), 0);
  }

  // ---------------------------------------------------------------- diagram move

  /** `c` is the node carrying `a` or one of its descendants. */
  predicate InSubtree(t: Task, a: Uid, c: Uid)
  {
    match FindByUid(t, a)
    case None => false
    case Some(n) => FindByUid(n, c).Some?
  }

  /** The uid of the parent of the node carrying `c`: `cursor.parent` of the diagram's
      hierarchy, which has the tree's shape. */
  function ParentUid(t: Task, c: Uid): Option<Uid>
  {
    match FindParentByUid(t, c)
    case None => None
    case Some(p) => p.uid
  }

  /** How far the node carrying `c` is from the root, measured in nodes outside its subtree. */
  ghost function Rank(t: Task, c: Uid): int
  {
    |PreOrder(t)| - match FindByUid(t, c) { case Some(n) => |PreOrder(n)| case None => 0 }
  }

  lemma {:induction false} PreOrderSize(t: Task, m: Task)
    requires m in PreOrder(t)
    ensures |PreOrder(m)| <= |PreOrder(t)|
    decreases t
  {
    if m != t {
      PreOrderAllMember(t.children, m);
      var j :| 0 <= j < |t.children| && m in PreOrder(t.children[j]);
      PreOrderSize(t.children[j], m);
      SubtreeSmaller(t.children, j);
    }
  }

  /** A node other than the root lies strictly inside the root's children. */
  lemma BelowRoot(t: Task, m: Task)
    requires m in PreOrder(t) && m != t
    ensures UidBag(m) <= UidBagAll(t.children)
  {
    PreOrderAllMember(t.children, m);
    var j :| 0 <= j < |t.children| && m in PreOrder(t.children[j]);
    NodeBag(t.children[j], m);
    ChildBag(t.children, j);
  }

  /** One step of the walk up from the node carrying `c` brings the parent closer to the root. */
  lemma RankStep(t: Task, c: Uid)
    requires Stamped(t) && Distinct(t) && c in UidBag(t) && ParentUid(t, c).Some?
    ensures ParentUid(t, c).value in UidBag(t)
    ensures 0 <= Rank(t, ParentUid(t, c).value) < Rank(t, c)
  {
    var p := FindParentByUid(t, c).value;
    FindParentByUidSound(t, c);
    var k :| 0 <= k < |p.children| && p.children[k].uid == Some(c);
    var pu := ParentUid(t, c).value;
    FindUnique(t, p, pu);
    NodeBag(t, p);
    ChildIsNode(p, p, k);
    ChildIsNode(t, p, k);
    FindUnique(t, p.children[k], c);
    PreOrderSize(t, p);
  }

  /** The node `a` has `c` in its subtree exactly when `a` is `c` or has the parent of
      `c` in its subtree: the ancestor walk can stop at the first match. */
  lemma AncestorStep(t: Task, a: Uid, c: Uid)
    requires Stamped(t) && Distinct(t) && c in UidBag(t)
    ensures InSubtree(t, a, c) <==> a == c || (ParentUid(t, c).Some? && InSubtree(t, a, ParentUid(t, c).value))
  {
    FindByUidFound(t, a);
    FindByUidFound(t, c);
    if t.uid == Some(c) {
      RootHasNoParent(t, c);
      if a != c && a in UidBag(t) {
        var n := FindByUid(t, a).value;
        BelowRoot(t, n);
        assert UidBagAll(t.children)[c] == 0;
        assert UidBag(n)[c] == 0;
        FindByUidFound(n, c);
      }
    } else {
      NonRootHasParent(t, c);
      var p := FindParentByUid(t, c).value;
      FindParentByUidSound(t, c);
      StampedNodes(t, p);
      var pu := p.uid.value;
      var k :| 0 <= k < |p.children| && p.children[k].uid == Some(c);
      FindUnique(t, p, pu);
      ChildIsNode(t, p, k);
      FindUnique(t, p.children[k], c);
      if a in UidBag(t) {
        var n := FindByUid(t, a).value;
        DistinctNode(t, n);
        FindByUidFound(n, c);
        FindByUidFound(n, pu);
        if a == c {
          FindUnique(n, n, c);
        }
        if FindByUid(n, pu).Some? {
          var q := FindByUid(n, pu).value;
          NodeOfNode(t, n, q);
          FindUnique(t, q, pu);
          ChildIsNode(n, p, k);
          NodeBag(n, p.children[k]);
        }
        if FindByUid(n, c).Some? && a != c {
          NonRootHasParent(n, c);
          var q := FindParentByUid(n, c).value;
          FindParentByUidSound(n, c);
          NodeOfNode(t, n, q);
          FindParentByUidComplete(t, q, c);
          NodeBag(n, q);
        }
      }
    }
  }

  /** The `while (cursor)` walk of the click handler: from the clicked node up through
      its parents, stopping at the selected node. It finds the selected node exactly
      when the clicked node is that node or one of its descendants. */
  method AncestorWalk(t: Task, sel: Uid, target: Uid) returns (isDescendant: bool)
    requires Stamped(t) && Distinct(t) && target in UidBag(t)
    ensures isDescendant == InSubtree(t, sel, target)
  {
    FindByUidFound(t, target);
    PreOrderSize(t, FindByUid(t, target).value);
    var cursor := Some(target);
    isDescendant := false;
    while cursor.Some?
      invariant cursor.Some? ==> cursor.value in UidBag(t) && Rank(t, cursor.value) >= 0
      invariant InSubtree(t, sel, target) <==> cursor.Some? && InSubtree(t, sel, cursor.value)
      decreases if cursor.Some? then Rank(t, cursor.value) + 1 else 0
    {
      AncestorStep(t, sel, cursor.value);
      if cursor.value == sel {
        isDescendant := true;
        break;
      }
      if ParentUid(t, cursor.value).Some? {
        RankStep(t, cursor.value);
      }
      cursor := ParentUid(t, cursor.value);
    }
  }

  /** What a click on `target` does in move mode with `sel` selected: the root is
      refused, a target inside the selected node's subtree is refused, a node without
      a parent aborts, and otherwise the node is filtered out of its parent's children
      and pushed onto the target's. */
  datatype ClickOutcome = RootRefused | IntoOwnSubtree | NoParent | Moved

  function DiagramMove(t: Task, sel: Uid, target: Uid): (Task, ClickOutcome)
  {
    if t.uid == Some(sel) then (t, RootRefused)
    else if InSubtree(t, sel, target) then (t, IntoOwnSubtree)
    else
      match FindByUid(t, sel)
      case None => (t, NoParent)
      case Some(n) =>
        match FindParent(t, n)
        case None => (t, NoParent)
        case Some(p) =>
          if p.uid.None? then (t, NoParent)
          else (MapAt(MapAt(t, p.uid.value, Drop(sel)), target, Append(n)), Moved)
  }

  /** A move in the diagram happens exactly when the selected node is in the tree, is
      not the root, and the target is outside its subtree; it keeps the tree a tree
      with the same nodes, changes only the two kid lists, and leaves the node with
      the target as its one parent. Every other outcome leaves the tree as it was. */
  lemma DiagramMoveFacts(t: Task, sel: Uid, target: Uid)
    requires Stamped(t) && Distinct(t) && target in UidBag(t)
    ensures var (r, out) := DiagramMove(t, sel, target);
      && (out == Moved <==> sel in UidBag(t) && t.uid != Some(sel) && !InSubtree(t, sel, target))
      && (out != Moved ==> r == t)
      && Stamped(r) && Distinct(r) && UidBag(r) == UidBag(t)
    ensures DiagramMove(t, sel, target).1 == Moved ==>
      var r := DiagramMove(t, sel, target).0;
      var n := FindByUid(t, sel).value;
      && r == Relocate(t, sel, target, Append(n))
      && FindParentByUid(t, sel).Some?
      && UidOf(FindParentByUid(t, sel).value) in Records(t) && target in Records(t)
      && Records(r) == MovedRecords(Records(t), sel, UidOf(FindParentByUid(t, sel).value), target, Append(n))
      && FindParentByUid(r, sel).Some? && FindParentByUid(r, sel).value.uid == Some(target)
  {
    FindByUidFound(t, sel);
    if sel in UidBag(t) && t.uid != Some(sel) && !InSubtree(t, sel, target) {
      var n := FindByUid(t, sel).value;
      NonRootHasParent(t, sel);
      FindParentMatchesUid(t, n, sel);
      var pn := FindParentByUid(t, sel).value;
      FindParentByUidSound(t, sel);
      StampedNodes(t, pn);
      FindByUidFound(n, target);
      assert Detach(t, sel) == MapAt(t, pn.uid.value, Drop(sel));
      RelocateRecords(t, sel, n, pn, target, Append(n));
      MovedHasOneParent(t, sel, n, pn, target, Append(n));
    }
  }
}
