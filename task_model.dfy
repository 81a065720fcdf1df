/** The Task record and the bottom-up completion pass (assets/js/task-model.js). */
module TaskModel {
  import opened Basics

  /** One task node: the seven fields of the Task constructor, plus the `_uid`
      property that the views stamp on a node the first time they need it. */
  datatype Task = Task(
    name: string,
    status: bool,
    percent: real,
    children: seq<Task>,
    descricao: string,
    url: string,
    collapsed: bool,
    uid: Option<Uid>)

  /** `new Task(name)`: every other constructor argument takes its default. */
  function NewTask(name: string): (t: Task)
    ensures t.name == name && t.children == [] && t.uid == None
    ensures !t.status && t.percent == 0.0 && !t.collapsed
    ensures t.descricao == "" && t.url == ""
  {
    Task(name, false, 0.0, [], "", "", false, None)
  }

  /** The root used when no task file can be loaded. */
  function DefaultRoot(): Task
  {
    NewTask("Project")
  }

  predicate IsLeaf(t: Task)
  {
    |t.children| == 0
  }

  function LeafPercent(status: bool): real
  {
    if status then 100.0 else 0.0
  }

  function Percents(cs: seq<Task>): (ps: seq<real>)
    ensures |ps| == |cs|
    ensures forall i :: 0 <= i < |cs| ==> ps[i] == cs[i].percent
  {
    seq(|cs|, i requires 0 <= i < |cs| => cs[i].percent)
  }

  /** The derived state agrees with the leaf statuses at every node: a leaf's percent
      mirrors its status, an internal node's percent is the unweighted mean of its
      children's percents and its status says whether that mean reached 100. */
  predicate Consistent(t: Task)
  {
    && (forall i :: 0 <= i < |t.children| ==> Consistent(t.children[i]))
    && if IsLeaf(t) then t.percent == LeafPercent(t.status)
       else t.percent == Mean(Percents(t.children)) && t.status == (t.percent >= 100.0)
  }

  /** Every stored percent lies in [0, 100]. */
  predicate InRange(t: Task)
  {
    && 0.0 <= t.percent <= 100.0
    && forall i :: 0 <= i < |t.children| ==> InRange(t.children[i])
  }

  /** Every leaf below (or at) `t` is done. */
  predicate AllLeavesDone(t: Task)
  {
    if IsLeaf(t) then t.status
    else forall i :: 0 <= i < |t.children| ==> AllLeavesDone(t.children[i])
  }

  /** `a` and `b` differ at most in the derived fields: the percent of every node and
      the status of internal nodes. Leaf statuses, names, descriptions, urls, collapse
      flags, uids and the child order are the same. */
  predicate SameButDerived(a: Task, b: Task)
  {
    && a.name == b.name && a.descricao == b.descricao && a.url == b.url
    && a.collapsed == b.collapsed && a.uid == b.uid
    && |a.children| == |b.children|
    && (IsLeaf(a) ==> a.status == b.status)
    && forall i :: 0 <= i < |a.children| ==> SameButDerived(a.children[i], b.children[i])
  }

  /** What `computePercentFromStatus` leaves in the tree: the post-order pass
      written as a function of the tree it starts from. */
  function Recomputed(t: Task): Task
    decreases t, 1
  {
    if IsLeaf(t) then t.(percent := LeafPercent(t.status))
    else
      var cs := RecomputedKids(t.children);
      var p := Mean(Percents(cs));
      t.(children := cs, percent := p, status := p >= 100.0)
  }

  /** `Recomputed` on each child in turn. */
  function RecomputedKids(cs: seq<Task>): (r: seq<Task>)
    ensures |r| == |cs| && forall i :: 0 <= i < |cs| ==> r[i] == Recomputed(cs[i])
    decreases cs, 0
  {
    seq(|cs|, i requires 0 <= i < |cs| => Recomputed(cs[i]))
  }

  /** `computePercentFromStatus(node)`: recomputes the children one by one, accumulating
      their percents, then stores the mean and the derived status on the node and
      returns the stored percent. The in-place writes become the returned tree `r`. */
  method ComputePercent(node: Task) returns (r: Task, p: real)
    ensures r == Recomputed(node)
    ensures p == r.percent
    decreases node
  {
    if |node.children| == 0 {
      r := node.(percent := if node.status then 100.0 else 0.0);
      return r, r.percent;
    }
    var totalChildren := |node.children|;
    var sumPercent := 0.0;
    var done: seq<Task> := [];
    for i := 0 to totalChildren
      invariant |done| == i
      invariant forall k :: 0 <= k < i ==> done[k] == Recomputed(node.children[k])
      invariant sumPercent == Sum(Percents(done))
    {
      var child, childPercent := ComputePercent(node.children[i]);
      assert Percents(done + [child]) == Percents(done) + [childPercent];
      SumAppend(Percents(done), childPercent);
      done := done + [child];
      sumPercent := sumPercent + childPercent;
    }
    var pct := if totalChildren > 0 then sumPercent / (totalChildren as real) else 0.0;
    r := node.(children := done, percent := pct, status := pct >= 100.0);
    p := r.percent;
    assert done == Recomputed(node).children;
  }

  lemma {:induction false} RecomputeEstablishesConsistency(t: Task)
    ensures Consistent(Recomputed(t))
  {
    forall i | 0 <= i < |t.children| {
      RecomputeEstablishesConsistency(t.children[i]);
    }
  }

  lemma {:induction false} ConsistentInRange(t: Task)
    requires Consistent(t)
    ensures InRange(t)
  {
    forall i | 0 <= i < |t.children| {
      ConsistentInRange(t.children[i]);
    }
    if !IsLeaf(t) {
      MeanBounds(Percents(t.children), 0.0, 100.0);
    }
  }

  /** A consistent tree is a fixpoint of the pass. */
  lemma {:induction false} ConsistentIsFixpoint(t: Task)
    requires Consistent(t)
    ensures Recomputed(t) == t
  {
    forall i | 0 <= i < |t.children| {
      ConsistentIsFixpoint(t.children[i]);
    }
    if !IsLeaf(t) {
      assert Recomputed(t).children == t.children;
    }
  }

  /** Running the pass twice stores the same percents and statuses as running it once. */
  lemma RecomputeIdempotent(t: Task)
    ensures Recomputed(Recomputed(t)) == Recomputed(t)
  {
    RecomputeEstablishesConsistency(t);
    ConsistentIsFixpoint(Recomputed(t));
  }

  /** The pass writes only percent (everywhere) and status (on internal nodes). */
  lemma {:induction false} RecomputeTouchesOnlyDerived(t: Task)
    ensures SameButDerived(t, Recomputed(t))
  {
    forall i | 0 <= i < |t.children| {
      RecomputeTouchesOnlyDerived(t.children[i]);
    }
  }

  /** The result of the pass depends only on the shape, the leaf statuses and the
      non-derived fields: whatever percents and internal statuses were stored before. */
  lemma {:induction false} RecomputeIgnoresDerivedInputs(a: Task, b: Task)
    requires SameButDerived(a, b)
    ensures Recomputed(a) == Recomputed(b)
  {
    forall i | 0 <= i < |a.children| {
      RecomputeIgnoresDerivedInputs(a.children[i], b.children[i]);
    }
    if !IsLeaf(a) {
      assert Recomputed(a).children == Recomputed(b).children;
    }
  }

  /** In a consistent tree a node is at 100% exactly when all leaves below it are done. */
  lemma {:induction false} FullPercentIffAllLeavesDone(t: Task)
    requires Consistent(t)
    ensures t.percent == 100.0 <==> AllLeavesDone(t)
  {
    forall i | 0 <= i < |t.children|
      ensures t.children[i].percent == 100.0 <==> AllLeavesDone(t.children[i])
      ensures 0.0 <= t.children[i].percent <= 100.0
    {
      FullPercentIffAllLeavesDone(t.children[i]);
      ConsistentInRange(t.children[i]);
    }
    if !IsLeaf(t) {
      var ps := Percents(t.children);
      MeanAtMaximum(ps, 100.0);
      MeanBounds(ps, 0.0, 100.0);
    }
  }

  /** In a consistent tree every node's status says whether all leaves below it are done. */
  lemma StatusIffAllLeavesDone(t: Task)
    requires Consistent(t)
    ensures t.status <==> AllLeavesDone(t)
  {
    FullPercentIffAllLeavesDone(t);
    ConsistentInRange(t);
  }

  /** A done leaf and an open leaf under one root give the root 50% and status false. */
  lemma HalfDoneExample()
    ensures var root := Recomputed(NewTask("root").(children := [NewTask("A").(status := true), NewTask("B")]));
            root.percent == 50.0 && !root.status
  {
    var root := Recomputed(NewTask("root").(children := [NewTask("A").(status := true), NewTask("B")]));
    assert Percents(root.children) == [100.0, 0.0];
    assert Sum([100.0, 0.0]) == 100.0 by {
      assert [100.0, 0.0][..1] == [100.0];
      assert [100.0][..0] == [];
    }
  }

  /** Two done leaves give their parent 100% and status true, and a grandparent whose
      only child is that parent gets 100% as well. */
  lemma NestedDoneExample()
    ensures var x := NewTask("X").(children := [NewTask("a").(status := true), NewTask("b").(status := true)]);
            var top := Recomputed(NewTask("top").(children := [x]));
            top.percent == 100.0 && top.children[0].percent == 100.0 && top.children[0].status
  {
    var x := NewTask("X").(children := [NewTask("a").(status := true), NewTask("b").(status := true)]);
    var rx := Recomputed(x);
    assert !IsLeaf(x);
    assert rx.children[0] == Recomputed(x.children[0]) && rx.children[1] == Recomputed(x.children[1]);
    assert rx.children[0].percent == 100.0 && rx.children[1].percent == 100.0;
    assert Percents(rx.children) == [100.0, 100.0];
    assert Sum([100.0, 100.0]) == 200.0 by {
      assert [100.0, 100.0][..1] == [100.0];
      assert [100.0][..0] == [];
    }
    var top := Recomputed(NewTask("top").(children := [x]));
    assert top.children == [rx];
    assert Percents(top.children) == [100.0];
    assert Sum([100.0]) == 100.0 by {
      assert [100.0][..0] == [];
    }
  }
}
