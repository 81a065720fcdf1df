/** The in-place edits that the handlers make on the task tree, written as functions
    from the tree before to the tree after. Each handler looks a node up by uid and
    changes that one node's fields or child list; `MapAt` is that pattern. */
module TreeEdit {
  import opened Basics
  import opened TaskModel
  import opened Identity
  import opened Lookup

  /** What a handler does to the one node it found. */
  datatype NodeEdit =
    | SetName(name: string)
      // `obj.name = newName` (rename_node)
    | Update(nameInput: string, descInput: string, checked: bool)
      // the writes of the Update button
    | ToggleCollapsed
      // `d.data.collapsed = !d.data.collapsed` (double click)
    | Append(child: Task)
      // `children.push(child)`
    | Insert(child: Task, pos: nat)
      // `children.splice(pos, 0, child)`
    | Drop(gone: Uid)
      // `children = children.filter(c => c._uid !== gone)`

  /** `arr.splice(pos, 0, c)` for a non-negative position: a position past the end
      inserts at the end. */
  function Splice<T>(cs: seq<T>, pos: nat, c: T): (r: seq<T>)
    ensures |r| == |cs| + 1
  {
    var k := if pos < |cs| then pos else |cs|;
    cs[..k] + [c] + cs[k..]
  }

  /** `cs.filter(c => c._uid !== u)`. */
  function Without(cs: seq<Task>, u: Uid): (r: seq<Task>)
    ensures |r| <= |cs|
  {
    if |cs| == 0 then []
    else (if cs[0].uid == Some(u) then [] else [cs[0]]) + Without(cs[1..], u)
  }

  function Apply(e: NodeEdit, n: Task): (r: Task)
    ensures r.uid == n.uid
  {
    match e
    case SetName(name) => n.(name := name)
    case Update(nameInput, descInput, checked) =>
      // `input.value || old name`, `input.value || ""`, and the checkbox only on a leaf
      n.(name := if nameInput == "" then n.name else nameInput,
         descricao := descInput,
         status := if IsLeaf(n) then checked else n.status)
    case ToggleCollapsed => n.(collapsed := !n.collapsed)
    case Append(c) => n.(children := n.children + [c])
    case Insert(c, pos) => n.(children := Splice(n.children, pos, c))
    case Drop(x) => n.(children := Without(n.children, x))
  }

  /** Look the node carrying `u` up and apply `e` to it; every other node keeps its
      fields. Every node carrying `u` is edited: with distinct uids that is the one
      node `findByUid` returns. A uid that is not in the tree changes nothing. */
  function MapAt(t: Task, u: Uid, e: NodeEdit): Task
    decreases t, 1
  {
    if t.uid == Some(u) then Apply(e, t)
    else t.(children := MapKids(t.children, u, e))
  }

  /** `MapAt` on each child in turn. */
  function MapKids(cs: seq<Task>, u: Uid, e: NodeEdit): (r: seq<Task>)
    ensures |r| == |cs| && forall i :: 0 <= i < |cs| ==> r[i] == MapAt(cs[i], u, e)
    decreases cs, 0
  {
    seq(|cs|, i requires 0 <= i < |cs| => MapAt(cs[i], u, e))
  }

  /** Detach the node carrying `x` from the parent `findParentByUid` finds for it;
      the root and a uid that is not in the tree have none, and nothing changes. */
  function Detach(t: Task, x: Uid): Task
  {
    match FindParentByUid(t, x)
    case None => t
    case Some(p) => if p.uid.Some? then MapAt(t, p.uid.value, Drop(x)) else t
  }

  /** Detach the node carrying `x`, then add a child (the detached node) to the node
      carrying `dest` with `e`: `push` for a move in the diagram, `splice` for a drag
      in the outline. */
  function Relocate(t: Task, x: Uid, dest: Uid, e: NodeEdit): Task
  {
    MapAt(Detach(t, x), dest, e)
  }

  // ---------------------------------------------------------------- basic facts

  lemma {:induction false} MapAtAbsent(t: Task, u: Uid, e: NodeEdit)
    requires u !in UidBag(t)
    ensures MapAt(t, u, e) == t
    decreases t
  {
    forall i | 0 <= i < |t.children|
      ensures MapAt(t.children[i], u, e) == t.children[i]
    {
      ChildBag(t.children, i);
      MapAtAbsent(t.children[i], u, e);
    }
    assert MapAt(t, u, e).children == t.children;
  }

  lemma MapAtUid(t: Task, u: Uid, e: NodeEdit)
    ensures MapAt(t, u, e).uid == t.uid
  {
  }

  /** A splice at or past the end appends. */
  lemma {:induction false} SpliceAtEnd<T>(cs: seq<T>, pos: nat, c: T)
    requires pos >= |cs|
    ensures Splice(cs, pos, c) == cs + [c]
  {
    assert cs[|cs|..] == [];
    assert cs[..|cs|] == cs;
  }

  lemma {:induction false} WithoutConcat(a: seq<Task>, b: seq<Task>, u: Uid)
    ensures Without(a + b, u) == Without(a, u) + Without(b, u)
  {
    if |a| == 0 {
      assert a + b == b;
    } else {
      assert (a + b)[0] == a[0] && (a + b)[1..] == a[1..] + b;
      WithoutConcat(a[1..], b, u);
    }
  }

  lemma {:induction false} WithoutAbsent(cs: seq<Task>, u: Uid)
    requires forall i :: 0 <= i < |cs| ==> cs[i].uid != Some(u)
    ensures Without(cs, u) == cs
  {
    if |cs| > 0 {
      WithoutAbsent(cs[1..], u);
    }
  }

  /** Filtering out the one child carrying `u` removes exactly that child. */
  lemma {:induction false} WithoutOne(cs: seq<Task>, k: nat, u: Uid)
    requires k < |cs| && cs[k].uid == Some(u)
    requires forall i :: 0 <= i < |cs| && i != k ==> cs[i].uid != Some(u)
    ensures Without(cs, u) == cs[..k] + cs[k + 1..]
  {
    var rest := cs[1..];
    if k == 0 {
      WithoutAbsent(rest, u);
    } else {
      WithoutOne(rest, k - 1, u);
      assert cs[..k] == [cs[0]] + rest[..k - 1];
      assert cs[k + 1..] == rest[k..];
    }
  }

  /** Filtering undoes a splice of a child whose uid no other child carries. */
  lemma WithoutUndoesSplice(cs: seq<Task>, pos: nat, c: Task, u: Uid)
    requires c.uid == Some(u) && forall i :: 0 <= i < |cs| ==> cs[i].uid != Some(u)
    ensures Without(Splice(cs, pos, c), u) == cs
  {
    var k := if pos < |cs| then pos else |cs|;
    var r := Splice(cs, pos, c);
    assert r[k] == c;
    forall i | 0 <= i < |r| && i != k
      ensures r[i].uid != Some(u)
    {
      if i < k {
        assert r[i] == cs[i];
      } else {
        assert r[i] == cs[i - 1];
      }
    }
    WithoutOne(r, k, u);
    assert r[..k] == cs[..k] && r[k + 1..] == cs[k..];
    assert cs[..k] + cs[k..] == cs;
  }

  // ---------------------------------------------------------------- collapse toggle

  /** Double-clicking a node twice restores the tree. */
  lemma {:induction false} ToggleTwice(t: Task, u: Uid)
    ensures MapAt(MapAt(t, u, ToggleCollapsed), u, ToggleCollapsed) == t
    decreases t
  {
    if t.uid != Some(u) {
      forall i | 0 <= i < |t.children|
        ensures MapAt(MapAt(t.children[i], u, ToggleCollapsed), u, ToggleCollapsed) == t.children[i]
      {
        ToggleTwice(t.children[i], u);
      }
      assert MapAt(MapAt(t, u, ToggleCollapsed), u, ToggleCollapsed).children == t.children;
    }
  }

  /** Toggling keeps a node's percent and status. */
  lemma ToggleKeepsDerived(t: Task, u: Uid)
    ensures MapAt(t, u, ToggleCollapsed).percent == t.percent
    ensures MapAt(t, u, ToggleCollapsed).status == t.status
  {
  }

  /** Toggling keeps the percents of a row of children. */
  lemma ToggleKeepsPercents(cs: seq<Task>, u: Uid)
    ensures Percents(MapKids(cs, u, ToggleCollapsed)) == Percents(cs)
  {
    var ms := MapKids(cs, u, ToggleCollapsed);
    forall i | 0 <= i < |cs|
      ensures ms[i].percent == cs[i].percent
    {
      ToggleKeepsDerived(cs[i], u);
    }
  }

  /** A row of children on which toggling commutes with the completion pass. */
  lemma KidsCommute(cs: seq<Task>, u: Uid)
    requires forall i :: 0 <= i < |cs| ==>
      Recomputed(MapAt(cs[i], u, ToggleCollapsed)) == MapAt(Recomputed(cs[i]), u, ToggleCollapsed)
    ensures RecomputedKids(MapKids(cs, u, ToggleCollapsed)) == MapKids(RecomputedKids(cs), u, ToggleCollapsed)
  {
    var ms, rs := MapKids(cs, u, ToggleCollapsed), RecomputedKids(cs);
    var a, b := RecomputedKids(ms), MapKids(rs, u, ToggleCollapsed);
    forall i | 0 <= i < |cs|
      ensures a[i] == b[i]
    {
      assert a[i] == Recomputed(ms[i]) && ms[i] == MapAt(cs[i], u, ToggleCollapsed);
      assert b[i] == MapAt(rs[i], u, ToggleCollapsed) && rs[i] == Recomputed(cs[i]);
    }
  }

  /** The step of `ToggleCommutesWithRecompute` at a node that is not the toggled one. */
  lemma ToggleBelow(t: Task, u: Uid)
    requires t.uid != Some(u)
    requires forall i :: 0 <= i < |t.children| ==>
      Recomputed(MapAt(t.children[i], u, ToggleCollapsed)) == MapAt(Recomputed(t.children[i]), u, ToggleCollapsed)
    ensures Recomputed(MapAt(t, u, ToggleCollapsed)) == MapAt(Recomputed(t), u, ToggleCollapsed)
  {
    var rt := Recomputed(t);
    var ms := MapKids(t.children, u, ToggleCollapsed);
    assert MapAt(t, u, ToggleCollapsed) == t.(children := ms);
    if !IsLeaf(t) {
      assert rt.children == RecomputedKids(t.children);
      KidsCommute(t.children, u);
      ToggleKeepsPercents(rt.children, u);
    }
  }

  /** Collapse state does not enter the completion pass: toggling before or after the
      recomputation that `render` runs gives the same tree. */
  lemma {:induction false} ToggleCommutesWithRecompute(t: Task, u: Uid)
    ensures Recomputed(MapAt(t, u, ToggleCollapsed)) == MapAt(Recomputed(t), u, ToggleCollapsed)
    decreases t
  {
    if t.uid == Some(u) {
      if !IsLeaf(t) {
        assert Recomputed(t.(collapsed := !t.collapsed)).children == Recomputed(t).children;
      }
    } else {
      forall i | 0 <= i < |t.children|
        ensures Recomputed(MapAt(t.children[i], u, ToggleCollapsed)) == MapAt(Recomputed(t.children[i]), u, ToggleCollapsed)
      {
        ToggleCommutesWithRecompute(t.children[i], u);
      }
      ToggleBelow(t, u);
    }
  }

  // ---------------------------------------------------------------- the derived pass

  /** The completion pass keeps uids, so it keeps the bag of uids and the stamps. */
  lemma {:induction false} SameButDerivedUids(a: Task, b: Task)
    requires SameButDerived(a, b)
    ensures UidBag(a) == UidBag(b)
    ensures Stamped(a) <==> Stamped(b)
    decreases a, 1
  {
    SameButDerivedUidsAll(a.children, b.children);
  }

  lemma {:induction false} SameButDerivedUidsAll(xs: seq<Task>, ys: seq<Task>)
    requires |xs| == |ys| && forall i :: 0 <= i < |xs| ==> SameButDerived(xs[i], ys[i])
    ensures UidBagAll(xs) == UidBagAll(ys)
    ensures (forall i :: 0 <= i < |xs| ==> Stamped(xs[i])) <==> (forall i :: 0 <= i < |ys| ==> Stamped(ys[i]))
    decreases xs, 0
  {
    forall i | 0 <= i < |xs|
      ensures UidBag(xs[i]) == UidBag(ys[i]) && (Stamped(xs[i]) <==> Stamped(ys[i]))
    {
      SameButDerivedUids(xs[i], ys[i]);
    }
    if |xs| > 0 {
      SameButDerivedUidsAll(xs[1..], ys[1..]);
    }
  }

  /** Recomputing keeps every uid where it was. */
  lemma RecomputeKeepsUids(t: Task)
    ensures UidBag(Recomputed(t)) == UidBag(t)
    ensures Stamped(Recomputed(t)) <==> Stamped(t)
  {
    RecomputeTouchesOnlyDerived(t);
    SameButDerivedUids(t, Recomputed(t));
  }
}
