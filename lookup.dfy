/** Finding nodes in the task tree: `findByUid` and `findParentByUid`
    (assets/js/task-tree-jstree.js) and `findParent` (assets/js/task-render.js). */
module Lookup {
  import opened Basics
  import opened TaskModel
  import opened Identity

  /** The nodes of a tree in the order a depth-first, parent-first walk visits them. */
  function PreOrder(t: Task): (s: seq<Task>)
    ensures |s| >= 1 && s[0] == t
    decreases t, 1
  {
    [t] + PreOrderAll(t.children)
  }

  function PreOrderAll(cs: seq<Task>): seq<Task>
    decreases cs, 0
  {
    if |cs| == 0 then [] else PreOrder(cs[0]) + PreOrderAll(cs[1..])
  }

  /** The first node of a listing that carries uid `u`. */
  function FirstWithUid(s: seq<Task>, u: Uid): Option<Task>
  {
    if |s| == 0 then None
    else if s[0].uid == Some(u) then Some(s[0])
    else FirstWithUid(s[1..], u)
  }

  /** `p` has a direct child carrying uid `u`. */
  predicate HasChildWithUid(p: Task, u: Uid)
  {
    exists i :: 0 <= i < |p.children| && p.children[i].uid == Some(u)
  }

  /** `findByUid(node, uid)`. */
  function FindByUid(t: Task, u: Uid): Option<Task>
    decreases t, 1
  {
    if t.uid == Some(u) then Some(t) else FindInChildren(t.children, u)
  }

  /** The loop of `findByUid` over the children: the first child subtree that has a match. */
  function FindInChildren(cs: seq<Task>, u: Uid): Option<Task>
    decreases cs, 0
  {
    if |cs| == 0 then None
    else
      match FindByUid(cs[0], u)
      case Some(n) => Some(n)
      case None => FindInChildren(cs[1..], u)
  }

  /** `findParentByUid(root, uid)`: the node one of whose children carries `uid`. */
  function FindParentByUid(t: Task, u: Uid): Option<Task>
    decreases t, 1
  {
    ParentAmong(t, t.children, u)
  }

  /** The loop of `findParentByUid` over the children `cs` of `p`. */
  function ParentAmong(p: Task, cs: seq<Task>, u: Uid): Option<Task>
    decreases cs, 0
  {
    if |cs| == 0 then None
    else if cs[0].uid == Some(u) then Some(p)
    else
      match FindParentByUid(cs[0], u)
      case Some(q) => Some(q)
      case None => ParentAmong(p, cs[1..], u)
  }

  /** `findParent(rootNode, target)` of the diagram. JavaScript compares node objects
      by reference; the model compares node values, which picks the same node in a
      tree whose uids are distinct (`FindParentMatchesUid`). */
  function FindParent(t: Task, target: Task): Option<Task>
    decreases t, 1
  {
    ParentOfAmong(t, t.children, target)
  }

  function ParentOfAmong(p: Task, cs: seq<Task>, target: Task): Option<Task>
    decreases cs, 0
  {
    if |cs| == 0 then None
    else if cs[0] == target then Some(p)
    else
      match FindParent(cs[0], target)
      case Some(q) => Some(q)
      case None => ParentOfAmong(p, cs[1..], target)
  }

  // ---------------------------------------------------------------- the listing

  lemma {:induction false} PreOrderAllMember(cs: seq<Task>, m: Task)
    ensures m in PreOrderAll(cs) <==> exists i :: 0 <= i < |cs| && m in PreOrder(cs[i])
  {
    if |cs| > 0 {
      PreOrderAllMember(cs[1..], m);
      if m in PreOrderAll(cs[1..]) {
        var i :| 0 <= i < |cs[1..]| && m in PreOrder(cs[1..][i]);
        assert m in PreOrder(cs[i + 1]);
      }
      if exists i :: 0 <= i < |cs| && m in PreOrder(cs[i]) {
        var i :| 0 <= i < |cs| && m in PreOrder(cs[i]);
        if i > 0 {
          assert cs[1..][i - 1] == cs[i];
        }
      }
    }
  }

  /** A child of a node of `t` is a node of `t`, and not `t` itself. */
  lemma {:induction false} ChildIsNode(t: Task, p: Task, i: nat)
    requires p in PreOrder(t) && i < |p.children|
    ensures p.children[i] in PreOrderAll(t.children)
    ensures |PreOrder(p.children[i])| < |PreOrder(t)|
    decreases t
  {
    if p == t {
      PreOrderAllMember(t.children, p.children[i]);
      PreOrderAllMember(p.children, p.children[i]);
      SubtreeSmaller(p.children, i);
    } else {
      PreOrderAllMember(t.children, p);
      var j :| 0 <= j < |t.children| && p in PreOrder(t.children[j]);
      ChildIsNode(t.children[j], p, i);
      PreOrderAllMember(t.children, p.children[i]);
      SubtreeSmaller(t.children, j);
    }
  }

  lemma {:induction false} SubtreeSmaller(cs: seq<Task>, i: nat)
    requires i < |cs|
    ensures |PreOrder(cs[i])| <= |PreOrderAll(cs)|
  {
    if i > 0 {
      SubtreeSmaller(cs[1..], i - 1);
    }
  }

  /** The uids below a node of `t` are uids of `t`. */
  lemma {:induction false} NodeBag(t: Task, m: Task)
    requires m in PreOrder(t)
    ensures UidBag(m) <= UidBag(t)
    decreases t
  {
    if m != t {
      PreOrderAllMember(t.children, m);
      var j :| 0 <= j < |t.children| && m in PreOrder(t.children[j]);
      NodeBag(t.children[j], m);
      ChildBag(t.children, j);
    }
  }

  lemma {:induction false} ChildBag(cs: seq<Task>, j: nat)
    requires j < |cs|
    ensures UidBag(cs[j]) <= UidBagAll(cs)
  {
    if j > 0 {
      ChildBag(cs[1..], j - 1);
    }
  }

  /** Two different children contribute disjoint parts of the uid bag. */
  lemma {:induction false} ChildrenBags(cs: seq<Task>, i: nat, j: nat, u: Uid)
    requires i < j < |cs|
    ensures UidBag(cs[i])[u] + UidBag(cs[j])[u] <= UidBagAll(cs)[u]
  {
    var rest := cs[1..];
    assert UidBagAll(cs)[u] == UidBag(cs[0])[u] + UidBagAll(rest)[u];
    assert rest[j - 1] == cs[j];
    if i > 0 {
      assert rest[i - 1] == cs[i];
      ChildrenBags(rest, i - 1, j - 1, u);
      assert UidBag(rest[i - 1])[u] + UidBag(rest[j - 1])[u] <= UidBagAll(rest)[u];
    } else {
      ChildBag(rest, j - 1);
      assert UidBag(rest[j - 1])[u] <= UidBagAll(rest)[u];
    }
  }

  lemma DistinctChild(t: Task, i: nat)
    requires Distinct(t) && i < |t.children|
    ensures Distinct(t.children[i])
  {
    ChildBag(t.children, i);
    forall u: Uid ensures UidBag(t.children[i])[u] <= 1 {
      assert UidBag(t.children[i])[u] <= UidBag(t)[u];
    }
  }

  /** In a tree with distinct uids a uid below child `i` is below no other child. */
  lemma OnlyInOneChild(t: Task, i: nat, j: nat, u: Uid)
    requires Distinct(t) && i < |t.children| && j < |t.children| && i != j
    requires u in UidBag(t.children[i])
    ensures u !in UidBag(t.children[j])
  {
    if i < j {
      ChildrenBags(t.children, i, j, u);
    } else {
      ChildrenBags(t.children, j, i, u);
    }
    assert UidBag(t.children[i])[u] + UidBag(t.children[j])[u] <= UidBag(t)[u] <= 1;
  }

  // ---------------------------------------------------------------- findByUid

  lemma {:induction false} FirstWithUidConcat(a: seq<Task>, b: seq<Task>, u: Uid)
    ensures FirstWithUid(a + b, u) == if FirstWithUid(a, u).Some? then FirstWithUid(a, u) else FirstWithUid(b, u)
  {
    if |a| > 0 {
      assert (a + b)[0] == a[0] && (a + b)[1..] == a[1..] + b;
      FirstWithUidConcat(a[1..], b, u);
    } else {
      assert a + b == b;
    }
  }

  /** `findByUid` returns the first node carrying the uid in a parent-first,
      left-to-right walk. */
  lemma {:induction false} FindByUidIsFirstInPreOrder(t: Task, u: Uid)
    ensures FindByUid(t, u) == FirstWithUid(PreOrder(t), u)
    decreases t, 1
  {
    assert PreOrder(t)[0] == t && PreOrder(t)[1..] == PreOrderAll(t.children);
    FindInChildrenIsFirst(t.children, u);
  }

  lemma {:induction false} FindInChildrenIsFirst(cs: seq<Task>, u: Uid)
    ensures FindInChildren(cs, u) == FirstWithUid(PreOrderAll(cs), u)
    decreases cs, 0
  {
    if |cs| > 0 {
      FindByUidIsFirstInPreOrder(cs[0], u);
      FindInChildrenIsFirst(cs[1..], u);
      FirstWithUidConcat(PreOrder(cs[0]), PreOrderAll(cs[1..]), u);
    }
  }

  /** `findByUid` finds a node exactly when some node carries the uid, and what it
      finds is a node of the tree carrying that uid. */
  lemma {:induction false} FindByUidFound(t: Task, u: Uid)
    ensures FindByUid(t, u).Some? <==> u in UidBag(t)
    ensures FindByUid(t, u).Some? ==> FindByUid(t, u).value.uid == Some(u) && FindByUid(t, u).value in PreOrder(t)
    decreases t, 1
  {
    FindInChildrenFound(t.children, u);
  }

  lemma {:induction false} FindInChildrenFound(cs: seq<Task>, u: Uid)
    ensures FindInChildren(cs, u).Some? <==> u in UidBagAll(cs)
    ensures FindInChildren(cs, u).Some? ==> FindInChildren(cs, u).value.uid == Some(u) && FindInChildren(cs, u).value in PreOrderAll(cs)
    decreases cs, 0
  {
    if |cs| > 0 {
      FindByUidFound(cs[0], u);
      FindInChildrenFound(cs[1..], u);
    }
  }

  /** In a tree with distinct uids, `findByUid` returns THE node carrying the uid. */
  lemma {:induction false} FindUnique(t: Task, m: Task, u: Uid)
    requires Distinct(t) && m in PreOrder(t) && m.uid == Some(u)
    ensures FindByUid(t, u) == Some(m)
    decreases t
  {
    if m != t {
      PreOrderAllMember(t.children, m);
      var j :| 0 <= j < |t.children| && m in PreOrder(t.children[j]);
      NodeBag(t.children[j], m);
      ChildBag(t.children, j);
      if t.uid == Some(u) {
        assert UidBag(t)[u] >= 2;
      }
      DistinctChild(t, j);
      FindUnique(t.children[j], m, u);
      FindInChildrenAt(t, j, u);
    }
  }

  /** With distinct uids the loop over the children returns the match of the one
      child whose subtree holds the uid. */
  lemma FindInChildrenAt(t: Task, j: nat, u: Uid)
    requires Distinct(t) && j < |t.children| && u in UidBag(t.children[j])
    ensures FindInChildren(t.children, u) == FindByUid(t.children[j], u)
  {
    forall i | 0 <= i < |t.children| && i != j
      ensures u !in UidBag(t.children[i])
    {
      OnlyInOneChild(t, j, i, u);
    }
    FindInChildrenSkip(t.children, j, u);
  }

  lemma {:induction false} FindInChildrenSkip(cs: seq<Task>, j: nat, u: Uid)
    requires j < |cs|
    requires forall i :: 0 <= i < j ==> u !in UidBag(cs[i])
    ensures FindInChildren(cs, u) == FindByUid(cs[j], u) || u !in UidBag(cs[j])
    ensures u in UidBag(cs[j]) ==> FindInChildren(cs, u) == FindByUid(cs[j], u)
  {
    FindByUidFound(cs[0], u);
    if j > 0 {
      FindInChildrenSkip(cs[1..], j - 1, u);
    }
  }

  // ---------------------------------------------------------------- findParentByUid

  /** What `findParentByUid` returns is a node of the tree with a child carrying the uid. */
  lemma {:induction false} FindParentByUidSound(t: Task, u: Uid)
    requires FindParentByUid(t, u).Some?
    ensures FindParentByUid(t, u).value in PreOrder(t)
    ensures HasChildWithUid(FindParentByUid(t, u).value, u)
    decreases t, 1
  {
    ParentAmongSound(t, t.children, u, 0);
  }

  lemma {:induction false} ParentAmongSound(t: Task, cs: seq<Task>, u: Uid, k: nat)
    requires k <= |t.children| && cs == t.children[k..]
    requires ParentAmong(t, cs, u).Some?
    ensures ParentAmong(t, cs, u).value in PreOrder(t)
    ensures HasChildWithUid(ParentAmong(t, cs, u).value, u)
    decreases cs, 0
  {
    assert cs[0] == t.children[k];
    if cs[0].uid != Some(u) {
      if FindParentByUid(cs[0], u).Some? {
        FindParentByUidSound(cs[0], u);
        PreOrderAllMember(t.children, FindParentByUid(cs[0], u).value);
      } else {
        assert cs[1..] == t.children[k + 1..];
        ParentAmongSound(t, cs[1..], u, k + 1);
      }
    }
  }

  /** In a tree with distinct uids, `findParentByUid` finds the parent of every
      non-root node: the one node that has the uid among its children. */
  lemma {:induction false} FindParentByUidComplete(t: Task, p: Task, u: Uid)
    requires Distinct(t) && p in PreOrder(t) && HasChildWithUid(p, u)
    ensures FindParentByUid(t, u) == Some(p)
    decreases t
  {
    var i :| 0 <= i < |p.children| && p.children[i].uid == Some(u);
    if p == t {
      forall k | 0 <= k < |t.children| && k != i
        ensures u !in UidBag(t.children[k])
      {
        OnlyInOneChild(t, i, k, u);
      }
      ParentAmongAt(t, t.children, i, u, Some(t));
    } else {
      PreOrderAllMember(t.children, p);
      var j :| 0 <= j < |t.children| && p in PreOrder(t.children[j]);
      var c := t.children[j];
      ChildIsNode(c, p, i);
      NodeBag(c, p.children[i]);
      forall k | 0 <= k < |t.children| && k != j
        ensures u !in UidBag(t.children[k])
      {
        OnlyInOneChild(t, j, k, u);
      }
      DistinctChild(t, j);
      FindParentByUidComplete(c, p, u);
      // `c` cannot carry `u` too: a node below it does.
      PreOrderAllMember(c.children, p.children[i]);
      var k :| 0 <= k < |c.children| && p.children[i] in PreOrder(c.children[k]);
      NodeBag(c.children[k], p.children[i]);
      ChildBag(c.children, k);
      assert u in UidBagAll(c.children) && UidBag(c)[u] <= 1;
      ParentAmongAt(t, t.children, j, u, Some(p));
    }
  }

  /** The loop over the children reaches child `j` when no earlier child subtree holds
      the uid, and there returns what child `j` yields. */
  lemma {:induction false} ParentAmongAt(p: Task, cs: seq<Task>, j: nat, u: Uid, r: Option<Task>)
    requires j < |cs|
    requires forall k :: 0 <= k < |cs| && k != j ==> u !in UidBag(cs[k])
    requires r == if cs[j].uid == Some(u) then Some(p) else FindParentByUid(cs[j], u)
    requires r.Some?
    ensures ParentAmong(p, cs, u) == r
  {
    if j > 0 {
      assert u !in UidBag(cs[0]);
      NoParentOutside(cs[0], u);
      ParentAmongAt(p, cs[1..], j - 1, u, r);
    }
  }

  /** A subtree without the uid yields no parent for it. */
  lemma NoParentOutside(t: Task, u: Uid)
    requires u !in UidBag(t)
    ensures FindParentByUid(t, u).None?
  {
    if FindParentByUid(t, u).Some? {
      FindParentByUidSound(t, u);
      var p := FindParentByUid(t, u).value;
      var i :| 0 <= i < |p.children| && p.children[i].uid == Some(u);
      ChildIsNode(t, p, i);
      PreOrderAllMember(t.children, p.children[i]);
      var j :| 0 <= j < |t.children| && p.children[i] in PreOrder(t.children[j]);
      NodeBag(t.children[j], p.children[i]);
      ChildBag(t.children, j);
    }
  }

  /** In a tree with distinct uids the root has no parent. */
  lemma RootHasNoParent(t: Task, u: Uid)
    requires Distinct(t) && t.uid == Some(u)
    ensures FindParentByUid(t, u) == None
  {
    if FindParentByUid(t, u).Some? {
      FindParentByUidSound(t, u);
      var p := FindParentByUid(t, u).value;
      var i :| 0 <= i < |p.children| && p.children[i].uid == Some(u);
      ChildIsNode(t, p, i);
      PreOrderAllMember(t.children, p.children[i]);
      var j :| 0 <= j < |t.children| && p.children[i] in PreOrder(t.children[j]);
      NodeBag(t.children[j], p.children[i]);
      ChildBag(t.children, j);
      assert UidBag(t)[u] >= 2;
    }
  }

  // ---------------------------------------------------------------- findParent

  /** What `findParent` returns is a node of the tree having the target as a child. */
  lemma {:induction false} FindParentSound(t: Task, target: Task)
    requires FindParent(t, target).Some?
    ensures FindParent(t, target).value in PreOrder(t)
    ensures target in FindParent(t, target).value.children
    decreases t, 1
  {
    ParentOfAmongSound(t, t.children, target, 0);
  }

  lemma {:induction false} ParentOfAmongSound(t: Task, cs: seq<Task>, target: Task, k: nat)
    requires k <= |t.children| && cs == t.children[k..]
    requires ParentOfAmong(t, cs, target).Some?
    ensures ParentOfAmong(t, cs, target).value in PreOrder(t)
    ensures target in ParentOfAmong(t, cs, target).value.children
    decreases cs, 0
  {
    assert cs[0] == t.children[k];
    if cs[0] != target {
      if FindParent(cs[0], target).Some? {
        FindParentSound(cs[0], target);
        PreOrderAllMember(t.children, FindParent(cs[0], target).value);
      } else {
        assert cs[1..] == t.children[k + 1..];
        ParentOfAmongSound(t, cs[1..], target, k + 1);
      }
    }
  }

  /** The root has no parent: the click handler refuses to move it for this reason. */
  lemma FindParentOfRoot(t: Task)
    ensures FindParent(t, t) == None
  {
    if FindParent(t, t).Some? {
      FindParentSound(t, t);
      var p := FindParent(t, t).value;
      var i :| 0 <= i < |p.children| && p.children[i] == t;
      ChildIsNode(t, p, i);
    }
  }

  /** In a stamped tree with distinct uids, a node is equal to the target exactly when
      it carries the target's uid, so `findParent` and `findParentByUid` agree. */
  lemma FindParentMatchesUid(t: Task, target: Task, u: Uid)
    requires Distinct(t) && target in PreOrder(t) && target.uid == Some(u)
    ensures FindParent(t, target) == FindParentByUid(t, u)
  {
    if FindParent(t, target).Some? {
      FindParentSound(t, target);
      var p := FindParent(t, target).value;
      var i :| 0 <= i < |p.children| && p.children[i] == target;
      FindParentByUidComplete(t, p, u);
    } else if FindParentByUid(t, u).Some? {
      FindParentByUidSound(t, u);
      var p := FindParentByUid(t, u).value;
      var i :| 0 <= i < |p.children| && p.children[i].uid == Some(u);
      ChildIsNode(t, p, i);
      PreOrderAllMember(t.children, p.children[i]);
      FindUnique(t, p.children[i], u);
      FindUnique(t, target, u);
      FindParentComplete(t, p, i);
    }
  }

  /** `findParent` finds a parent for every child of a node of the tree. */
  lemma {:induction false} FindParentComplete(t: Task, p: Task, i: nat)
    requires p in PreOrder(t) && i < |p.children|
    ensures FindParent(t, p.children[i]).Some?
    decreases t
  {
    var c := p.children[i];
    if p == t {
      ParentOfAmongReaches(t, t.children, i, c);
    } else {
      PreOrderAllMember(t.children, p);
      var j :| 0 <= j < |t.children| && p in PreOrder(t.children[j]);
      FindParentComplete(t.children[j], p, i);
      ParentOfAmongReaches(t, t.children, j, c);
    }
  }

  lemma {:induction false} ParentOfAmongReaches(p: Task, cs: seq<Task>, j: nat, target: Task)
    requires j < |cs| && (cs[j] == target || FindParent(cs[j], target).Some?)
    ensures ParentOfAmong(p, cs, target).Some?
  {
    if j > 0 && cs[0] != target && FindParent(cs[0], target).None? {
      ParentOfAmongReaches(p, cs[1..], j - 1, target);
    }
  }

  /** Every node of a stamped tree is stamped. */
  lemma {:induction false} StampedNodes(t: Task, m: Task)
    requires Stamped(t) && m in PreOrder(t)
    ensures Stamped(m)
    decreases t
  {
    if m != t {
      PreOrderAllMember(t.children, m);
      var j :| 0 <= j < |t.children| && m in PreOrder(t.children[j]);
      StampedNodes(t.children[j], m);
    }
  }
}
