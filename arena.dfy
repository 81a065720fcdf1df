/** The task tree seen as a table from uid to node record: each node's own fields
    and the uids of its children. In that view every handler's edit is a small map
    update, and "no other node changes" can be stated exactly. */
module Arena {
  import opened Basics
  import opened TaskModel
  import opened Identity
  import opened Lookup
  import opened TreeEdit

  /** One node on its own: its fields and its children's uids, in order. */
  datatype Rec = Rec(
    name: string,
    status: bool,
    percent: real,
    descricao: string,
    url: string,
    collapsed: bool,
    kids: seq<Uid>)

  function UidOf(t: Task): Uid
  {
    if t.uid.Some? then t.uid.value else 0
  }

  function KidUids(cs: seq<Task>): (r: seq<Uid>)
    ensures |r| == |cs| && forall i :: 0 <= i < |cs| ==> r[i] == UidOf(cs[i])
  {
    seq(|cs|, i requires 0 <= i < |cs| => UidOf(cs[i]))
  }

  function RecOf(n: Task): Rec
  {
    Rec(n.name, n.status, n.percent, n.descricao, n.url, n.collapsed, KidUids(n.children))
  }

  /** The record of the node that `findByUid` returns for `v`. */
  function RecAt(t: Task, v: Uid): Rec
  {
    match FindByUid(t, v)
    case Some(n) => RecOf(n)
    case None => Rec("", false, 0.0, "", "", false, [])
  }

  /** The table: one record per uid in the tree. */
  ghost function Records(t: Task): map<Uid, Rec>
  {
    map v | v in UidBag(t) :: RecAt(t, v)
  }

  ghost function UidSet(t: Task): set<Uid>
  {
    set v | v in UidBag(t)
  }

  /** `ks` without `x`: the child list of a record after `filter`. */
  function Omit(ks: seq<Uid>, x: Uid): seq<Uid>
  {
    if |ks| == 0 then [] else (if ks[0] == x then [] else [ks[0]]) + Omit(ks[1..], x)
  }

  /** A record whose child list has lost `x` (`filter`). */
  function DropKid(rec: Rec, x: Uid): Rec
  {
    rec.(kids := Omit(rec.kids, x))
  }

  /** A record whose child list has gained `x` at `pos` (`splice` or `push`). */
  function AddKid(rec: Rec, pos: nat, x: Uid): Rec
  {
    rec.(kids := Splice(rec.kids, pos, x))
  }

  /** `r` with its node's subtree replaced: the records under the old node are
      dropped and the records of the new subtree are laid over the rest. */
  ghost function Graft(r: map<Uid, Rec>, gone: set<Uid>, s: map<Uid, Rec>): map<Uid, Rec>
  {
    map v | v in (r.Keys - gone) + s.Keys :: if v in s then s[v] else r[v]
  }

  /** The new uids of a replacement subtree `m` for node `n` do not occur elsewhere in `t`. */
  ghost predicate FreshFor(t: Task, n: Task, m: Task)
  {
    forall v :: v in UidBag(m) && v in UidBag(t) ==> v in UidBag(n)
  }

  // ---------------------------------------------------------------- helpers

  lemma {:induction false} BagAllMember(cs: seq<Task>, v: Uid)
    requires v in UidBagAll(cs)
    ensures exists j :: 0 <= j < |cs| && v in UidBag(cs[j])
  {
    if v !in UidBag(cs[0]) {
      BagAllMember(cs[1..], v);
      var j :| 0 <= j < |cs[1..]| && v in UidBag(cs[1..][j]);
      assert cs[1..][j] == cs[j + 1];
    }
  }

  lemma {:induction false} BagAllUpdate(cs: seq<Task>, k: nat, y: Task, v: Uid)
    requires k < |cs|
    ensures UidBagAll(cs[k := y])[v] + UidBag(cs[k])[v] == UidBagAll(cs)[v] + UidBag(y)[v]
  {
    var cs' := cs[k := y];
    assert UidBagAll(cs')[v] == UidBag(cs'[0])[v] + UidBagAll(cs'[1..])[v];
    assert UidBagAll(cs)[v] == UidBag(cs[0])[v] + UidBagAll(cs[1..])[v];
    if k == 0 {
      assert cs'[1..] == cs[1..];
    } else {
      assert cs'[1..] == cs[1..][k - 1 := y];
      assert cs[1..][k - 1] == cs[k];
      BagAllUpdate(cs[1..], k - 1, y, v);
    }
  }

  lemma {:induction false} NodeOfNode(t: Task, m: Task, k: Task)
    requires m in PreOrder(t) && k in PreOrder(m)
    ensures k in PreOrder(t)
    decreases t
  {
    if m != t {
      PreOrderAllMember(t.children, m);
      var j :| 0 <= j < |t.children| && m in PreOrder(t.children[j]);
      NodeOfNode(t.children[j], m, k);
      PreOrderAllMember(t.children, k);
    }
  }

  lemma DistinctNode(t: Task, m: Task)
    requires Distinct(t) && m in PreOrder(t)
    ensures Distinct(m)
  {
    NodeBag(t, m);
    forall v: Uid ensures UidBag(m)[v] <= 1 {
      assert UidBag(m)[v] <= UidBag(t)[v];
    }
  }

  /** Inside a node of a tree with distinct uids, `findByUid` finds what it finds in
      the whole tree. */
  lemma SubtreeFind(t: Task, m: Task, v: Uid)
    requires Distinct(t) && m in PreOrder(t) && v in UidBag(m)
    ensures FindByUid(m, v) == FindByUid(t, v)
  {
    FindByUidFound(m, v);
    var k := FindByUid(m, v).value;
    NodeOfNode(t, m, k);
    DistinctNode(t, m);
    FindUnique(m, k, v);
    FindUnique(t, k, v);
  }

  /** The records of a node's subtree are the tree's records for those uids. */
  lemma SubtreeRecords(t: Task, m: Task)
    requires Distinct(t) && m in PreOrder(t)
    ensures forall v :: v in Records(m) ==> v in Records(t) && Records(m)[v] == Records(t)[v]
  {
    NodeBag(t, m);
    forall v | v in Records(m)
      ensures v in Records(t) && Records(m)[v] == Records(t)[v]
    {
      SubtreeFind(t, m, v);
    }
  }

  // ---------------------------------------------------------------- editing one node

  /** Replacing the node `n` that carries `u` by `Apply(e, n)` swaps the uids of
      `n`'s subtree for those of the new subtree, one count at a time. */
  lemma {:induction false} MapAtBag(t: Task, u: Uid, e: NodeEdit, n: Task, v: Uid)
    requires Distinct(t) && FindByUid(t, u) == Some(n)
    ensures UidBag(MapAt(t, u, e))[v] + UidBag(n)[v] == UidBag(t)[v] + UidBag(Apply(e, n))[v]
    decreases t
  {
    if t.uid != Some(u) {
      var cs := t.children;
      var r := MapAt(t, u, e);
      FindByUidFound(t, u);
      var k := MapAtChildren(t, u, e);
      FindInChildrenAt(t, k, u);
      DistinctChild(t, k);
      MapAtBag(cs[k], u, e, n, v);
      BagAllUpdate(cs, k, MapAt(cs[k], u, e), v);
    }
  }

  /** Below a root that does not carry `u`, the edit reaches exactly one child. */
  lemma MapAtChildren(t: Task, u: Uid, e: NodeEdit) returns (k: nat)
    requires Distinct(t) && u in UidBag(t) && t.uid != Some(u)
    ensures k < |t.children| && u in UidBag(t.children[k])
    ensures MapAt(t, u, e).children == t.children[k := MapAt(t.children[k], u, e)]
  {
    var cs := t.children;
    BagAllMember(cs, u);
    k :| 0 <= k < |cs| && u in UidBag(cs[k]);
    var ms := MapKids(cs, u, e);
    assert MapAt(t, u, e).children == ms;
    forall i | 0 <= i < |cs| && i != k
      ensures ms[i] == cs[i]
    {
      OnlyInOneChild(t, k, i, u);
      MapAtAbsent(cs[i], u, e);
    }
    assert ms == cs[k := MapAt(cs[k], u, e)];
  }

  lemma {:induction false} MapAtStamped(t: Task, u: Uid, e: NodeEdit, n: Task)
    requires Stamped(t) && Distinct(t) && FindByUid(t, u) == Some(n) && Stamped(Apply(e, n))
    ensures Stamped(MapAt(t, u, e))
    decreases t
  {
    if t.uid != Some(u) {
      FindByUidFound(t, u);
      var k := MapAtChildren(t, u, e);
      FindInChildrenAt(t, k, u);
      DistinctChild(t, k);
      MapAtStamped(t.children[k], u, e, n);
    }
  }

  /** The record `findByUid` yields for `v` after the edit: from the new subtree if
      `v` is in it, and otherwise the record it had before. */
  lemma {:induction false} MapAtRec(t: Task, u: Uid, e: NodeEdit, n: Task, v: Uid)
    requires Distinct(t) && FindByUid(t, u) == Some(n) && FreshFor(t, n, Apply(e, n))
    requires v in UidBag(MapAt(t, u, e))
    ensures v in UidBag(Apply(e, n)) ==> RecAt(MapAt(t, u, e), v) == RecAt(Apply(e, n), v)
    ensures v !in UidBag(Apply(e, n)) ==>
      v in UidBag(t) && v !in UidBag(n) && RecAt(MapAt(t, u, e), v) == RecAt(t, v)
    decreases t, 2
  {
    MapAtBag(t, u, e, n, v);
    FindByUidFound(t, u);
    NodeBag(t, n);
    assert UidBag(n)[v] <= UidBag(t)[v] <= 1;
    if t.uid != Some(u) {
      var k := MapAtChildren(t, u, e);
      FindInChildrenAt(t, k, u);
      DistinctChild(t, k);
      FindByUidFound(t.children[k], u);
      NodeBag(t.children[k], n);
      if t.uid == Some(v) {
        MapAtRecAtRoot(t, u, e, n, v, k);
      } else {
        MapAtRecBelow(t, u, e, n, v, k);
      }
    }
  }

  /** The root of an edited tree keeps its record when the edit is further down. */
  lemma MapAtRecAtRoot(t: Task, u: Uid, e: NodeEdit, n: Task, v: Uid, k: nat)
    requires Distinct(t) && FreshFor(t, n, Apply(e, n)) && t.uid == Some(v) && t.uid != Some(u)
    requires k < |t.children| && FindByUid(t.children[k], u) == Some(n)
    requires UidBag(n) <= UidBag(t.children[k])
    requires MapAt(t, u, e).children == t.children[k := MapAt(t.children[k], u, e)]
    ensures v !in UidBag(Apply(e, n)) && v !in UidBag(n)
    ensures RecAt(MapAt(t, u, e), v) == RecAt(t, v)
  {
    ChildBag(t.children, k);
    assert UidBag(t)[v] == 1 + UidBagAll(t.children)[v];
    assert UidBag(t.children[k])[v] <= UidBagAll(t.children)[v];
    var r := MapAt(t, u, e);
    assert KidUids(r.children) == KidUids(t.children);
  }

  /** Below the root the lookup of `v` lands in one child: the edited child, where the
      claim holds by induction, or another one, which the edit did not touch. */
  lemma {:induction false} MapAtRecBelow(t: Task, u: Uid, e: NodeEdit, n: Task, v: Uid, k: nat)
    requires Distinct(t) && FreshFor(t, n, Apply(e, n)) && t.uid != Some(v) && t.uid != Some(u)
    requires k < |t.children| && FindByUid(t.children[k], u) == Some(n)
    requires UidBag(n) <= UidBag(t.children[k])
    requires MapAt(t, u, e).children == t.children[k := MapAt(t.children[k], u, e)]
    requires v in UidBag(MapAt(t, u, e))
    ensures v in UidBag(Apply(e, n)) ==> RecAt(MapAt(t, u, e), v) == RecAt(Apply(e, n), v)
    ensures v !in UidBag(Apply(e, n)) ==>
      v in UidBag(t) && v !in UidBag(n) && RecAt(MapAt(t, u, e), v) == RecAt(t, v)
    decreases t, 1
  {
    var cs := t.children;
    var r := MapAt(t, u, e);
    DistinctChild(t, k);
    ChildBag(cs, k);
    MapAtBag(cs[k], u, e, n, v);
    BagAllMember(r.children, v);
    var j :| 0 <= j < |cs| && v in UidBag(r.children[j]);
    if j != k {
      MapAtRecOtherChild(t, u, e, n, v, k, j);
    } else {
      MapAtRecEditedChild(t, u, e, n, v, k);
    }
  }

  /** A uid of the edited child, or one new to the tree, is under no other child. */
  lemma OnlyInEditedChild(t: Task, u: Uid, e: NodeEdit, v: Uid, k: nat)
    requires Distinct(t) && k < |t.children|
    requires MapAt(t, u, e).children == t.children[k := MapAt(t.children[k], u, e)]
    requires v in UidBag(t.children[k]) || v !in UidBag(t)
    ensures forall i :: 0 <= i < |t.children| && i != k ==> v !in UidBag(MapAt(t, u, e).children[i])
  {
    var cs := t.children;
    forall i | 0 <= i < |cs| && i != k
      ensures v !in UidBag(cs[i])
    {
      if v in UidBag(cs[k]) {
        OnlyInOneChild(t, k, i, v);
      } else {
        ChildBag(cs, i);
        assert UidBag(cs[i])[v] <= UidBagAll(cs)[v] <= UidBag(t)[v];
      }
    }
  }

  lemma {:induction false} MapAtRecEditedChild(t: Task, u: Uid, e: NodeEdit, n: Task, v: Uid, k: nat)
    requires Distinct(t) && FreshFor(t, n, Apply(e, n)) && t.uid != Some(v) && t.uid != Some(u)
    requires k < |t.children| && FindByUid(t.children[k], u) == Some(n)
    requires UidBag(n) <= UidBag(t.children[k])
    requires MapAt(t, u, e).children == t.children[k := MapAt(t.children[k], u, e)]
    requires v in UidBag(MapAt(t.children[k], u, e))
    ensures v in UidBag(Apply(e, n)) ==> RecAt(MapAt(t, u, e), v) == RecAt(Apply(e, n), v)
    ensures v !in UidBag(Apply(e, n)) ==>
      v in UidBag(t) && v !in UidBag(n) && RecAt(MapAt(t, u, e), v) == RecAt(t, v)
    decreases t, 0
  {
    var cs := t.children;
    var r := MapAt(t, u, e);
    DistinctChild(t, k);
    ChildBag(cs, k);
    assert FreshFor(cs[k], n, Apply(e, n));
    MapAtRec(cs[k], u, e, n, v);
    MapAtBag(cs[k], u, e, n, v);
    if v !in UidBag(cs[k]) {
      // `v` is a new uid of the edited subtree, so it is nowhere in `t`.
      assert UidBag(n)[v] <= UidBag(cs[k])[v] == 0;
      assert v in UidBag(Apply(e, n));
    }
    OnlyInEditedChild(t, u, e, v, k);
    FindInChildrenSkip(r.children, k, v);
    assert FindByUid(r, v) == FindByUid(MapAt(cs[k], u, e), v);
    assert RecAt(r, v) == RecAt(MapAt(cs[k], u, e), v);
    if v !in UidBag(Apply(e, n)) {
      FindInChildrenAt(t, k, v);
      assert FindByUid(t, v) == FindByUid(cs[k], v);
      assert UidBag(cs[k])[v] <= UidBagAll(cs)[v] <= UidBag(t)[v];
    }
  }

  /** A uid under a child the edit did not reach keeps its record. */
  lemma MapAtRecOtherChild(t: Task, u: Uid, e: NodeEdit, n: Task, v: Uid, k: nat, j: nat)
    requires Distinct(t) && FreshFor(t, n, Apply(e, n)) && t.uid != Some(v) && t.uid != Some(u)
    requires k < |t.children| && j < |t.children| && j != k
    requires UidBag(n) <= UidBag(t.children[k])
    requires MapAt(t, u, e).children == t.children[k := MapAt(t.children[k], u, e)]
    requires UidBag(MapAt(t.children[k], u, e))[v] + UidBag(n)[v] == UidBag(t.children[k])[v] + UidBag(Apply(e, n))[v]
    requires v in UidBag(t.children[j])
    ensures v !in UidBag(Apply(e, n)) && v in UidBag(t) && v !in UidBag(n)
    ensures RecAt(MapAt(t, u, e), v) == RecAt(t, v)
  {
    var cs := t.children;
    var r := MapAt(t, u, e);
    ChildBag(cs, j);
    OnlyInOneChild(t, j, k, v);
    forall i | 0 <= i < |cs| && i != j
      ensures v !in UidBag(r.children[i])
    {
      if i != k {
        OnlyInOneChild(t, j, i, v);
      }
    }
    FindInChildrenSkip(r.children, j, v);
    FindInChildrenAt(t, j, v);
  }

  /** Editing the node `n` that `findByUid` finds for `u`: the table loses the records
      of `n`'s subtree and gains those of the edited subtree; the tree stays stamped
      and its uids stay distinct when the edited subtree brings only fresh uids. */
  lemma EditRecords(t: Task, u: Uid, e: NodeEdit, n: Task)
    requires Stamped(t) && Distinct(t) && FindByUid(t, u) == Some(n)
    requires Stamped(Apply(e, n)) && Distinct(Apply(e, n)) && FreshFor(t, n, Apply(e, n))
    ensures UidBag(MapAt(t, u, e)) + UidBag(n) == UidBag(t) + UidBag(Apply(e, n))
    ensures Stamped(MapAt(t, u, e)) && Distinct(MapAt(t, u, e))
    ensures Records(MapAt(t, u, e)) == Graft(Records(t), UidSet(n), Records(Apply(e, n)))
  {
    var r := MapAt(t, u, e);
    var a := Apply(e, n);
    FindByUidFound(t, u);
    NodeBag(t, n);
    MapAtStamped(t, u, e, n);
    forall v: Uid
      ensures UidBag(r)[v] + UidBag(n)[v] == UidBag(t)[v] + UidBag(a)[v]
      ensures UidBag(r)[v] <= 1
      ensures v in UidBag(r) <==> (v in UidBag(t) && v !in UidBag(n)) || v in UidBag(a)
    {
      MapAtBag(t, u, e, n, v);
      assert UidBag(n)[v] <= UidBag(t)[v] <= 1 && UidBag(a)[v] <= 1;
    }
    GraftRecords(t, u, e, n);
  }

  lemma GraftRecords(t: Task, u: Uid, e: NodeEdit, n: Task)
    requires Distinct(t) && FindByUid(t, u) == Some(n) && FreshFor(t, n, Apply(e, n))
    requires forall v :: v in UidBag(MapAt(t, u, e)) <==> (v in UidBag(t) && v !in UidBag(n)) || v in UidBag(Apply(e, n))
    ensures Records(MapAt(t, u, e)) == Graft(Records(t), UidSet(n), Records(Apply(e, n)))
  {
    GraftKeys(MapAt(t, u, e), t, n, Apply(e, n));
    GraftRecordsAgree(t, u, e, n);
  }

  /** Every record of the edited table is the grafted one. */
  lemma GraftRecordsAgree(t: Task, u: Uid, e: NodeEdit, n: Task)
    requires Distinct(t) && FindByUid(t, u) == Some(n) && FreshFor(t, n, Apply(e, n))
    ensures forall v :: v in Records(MapAt(t, u, e)) ==>
      v in Graft(Records(t), UidSet(n), Records(Apply(e, n))) &&
      Records(MapAt(t, u, e))[v] == Graft(Records(t), UidSet(n), Records(Apply(e, n)))[v]
  {
    forall v | v in Records(MapAt(t, u, e))
      ensures v in Graft(Records(t), UidSet(n), Records(Apply(e, n)))
      ensures Records(MapAt(t, u, e))[v] == Graft(Records(t), UidSet(n), Records(Apply(e, n)))[v]
    {
      GraftRecordAt(t, u, e, n, v);
    }
  }

  /** The keys of a grafted table: the uids of the new tree. */
  lemma GraftKeys(r: Task, t: Task, n: Task, a: Task)
    requires forall v :: v in UidBag(r) <==> (v in UidBag(t) && v !in UidBag(n)) || v in UidBag(a)
    ensures Records(r).Keys == Graft(Records(t), UidSet(n), Records(a)).Keys
  {
  }

  /** One record of the edited table, read off the graft. */
  lemma GraftRecordAt(t: Task, u: Uid, e: NodeEdit, n: Task, v: Uid)
    requires Distinct(t) && FindByUid(t, u) == Some(n) && FreshFor(t, n, Apply(e, n))
    requires v in Records(MapAt(t, u, e))
    ensures v in Graft(Records(t), UidSet(n), Records(Apply(e, n)))
    ensures Records(MapAt(t, u, e))[v] == Graft(Records(t), UidSet(n), Records(Apply(e, n)))[v]
  {
    var r, a := MapAt(t, u, e), Apply(e, n);
    assert v in UidBag(r);
    MapAtRec(t, u, e, n, v);
    if v in UidBag(a) {
      assert v in Records(a);
    } else {
      assert v in Records(t) && v !in UidSet(n);
    }
  }


  // ---------------------------------------------------------------- node-level views

  lemma {:induction false} FindInChildrenConcat(xs: seq<Task>, ys: seq<Task>, v: Uid)
    ensures FindInChildren(xs + ys, v) ==
      if FindInChildren(xs, v).Some? then FindInChildren(xs, v) else FindInChildren(ys, v)
  {
    if |xs| == 0 {
      assert xs + ys == ys;
    } else {
      assert (xs + ys)[0] == xs[0] && (xs + ys)[1..] == xs[1..] + ys;
      FindInChildrenConcat(xs[1..], ys, v);
    }
  }

  /** Two nodes with the same uid and the same children: the same uids, and the same
      records except the node's own. */
  lemma SameChildrenRecords(a: Task, b: Task)
    requires a.children == b.children && a.uid == b.uid && a.uid.Some?
    ensures UidBag(a) == UidBag(b)
    ensures Records(b) == Records(a)[UidOf(a) := RecOf(b)]
  {
    var x := Records(a)[UidOf(a) := RecOf(b)];
    forall v | v in Records(b)
      ensures v in x && Records(b)[v] == x[v]
    {
    }
  }

  /** A node `q` whose children are those of `p` with `c` inserted: `q` holds the uids
      of `p` and of `c`, and below the root each record comes from `c` or from `p`. */
  lemma SpliceChildBag(p: Task, xs: seq<Task>, c: Task, ys: seq<Task>, q: Task, v: Uid)
    requires p.children == xs + ys && q == p.(children := xs + [c] + ys)
    ensures UidBag(q)[v] == UidBag(p)[v] + UidBag(c)[v]
  {
    UidBagAllConcat(xs + [c], ys);
    UidBagAllConcat(xs, [c]);
    UidBagAllConcat(xs, ys);
    assert UidBagAll([c]) == UidBag(c) by {
      assert [c][1..] == [];
    }
  }

  /** A node `q` whose children are those of `p` with `c` inserted: below the root
      each record of `q` comes from `c` or from `p`. */
  lemma SpliceChildRec(p: Task, xs: seq<Task>, c: Task, ys: seq<Task>, q: Task, v: Uid)
    requires p.children == xs + ys && q == p.(children := xs + [c] + ys)
    requires Distinct(q)
    ensures v in UidBag(q) && q.uid != Some(v) ==>
      RecAt(q, v) == if v in UidBag(c) then RecAt(c, v) else RecAt(p, v)
  {
    SpliceChildBag(p, xs, c, ys, q, v);
    UidBagAllConcat(xs + [c], ys);
    UidBagAllConcat(xs, [c]);
    UidBagAllConcat(xs, ys);
    FindInChildrenConcat(xs + [c], ys, v);
    FindInChildrenConcat(xs, [c], v);
    FindInChildrenConcat(xs, ys, v);
    assert FindInChildren([c], v) == FindByUid(c, v) by {
      assert [c][1..] == [];
    }
    FindByUidFound(c, v);
    FindInChildrenFound(xs, v);
    assert UidBag(q)[v] <= 1;
  }

  lemma {:induction false} KidUidsWithout(cs: seq<Task>, x: Uid)
    requires forall i :: 0 <= i < |cs| ==> Stamped(cs[i])
    ensures KidUids(Without(cs, x)) == Omit(KidUids(cs), x)
  {
    if |cs| > 0 {
      KidUidsWithout(cs[1..], x);
      assert KidUids(cs)[1..] == KidUids(cs[1..]);
      var head := if cs[0].uid == Some(x) then [] else [cs[0]];
      assert KidUids(head + Without(cs[1..], x)) == KidUids(head) + KidUids(Without(cs[1..], x));
    }
  }

  lemma KidUidsSplice(cs: seq<Task>, pos: nat, c: Task)
    ensures KidUids(Splice(cs, pos, c)) == Splice(KidUids(cs), pos, UidOf(c))
  {
    var k := if pos < |cs| then pos else |cs|;
    var l := KidUids(Splice(cs, pos, c));
    var r := Splice(KidUids(cs), pos, UidOf(c));
    assert |l| == |r|;
    forall i | 0 <= i < |l|
      ensures l[i] == r[i]
    {
      if i < k {
        assert Splice(cs, pos, c)[i] == cs[i];
      } else if i > k {
        assert Splice(cs, pos, c)[i] == cs[i - 1];
      }
    }
  }

  // ---------------------------------------------------------------- the handlers' edits

  /** What a field edit does to the record of the node it edits. */
  function ApplyRec(e: NodeEdit, r: Rec): Rec
  {
    match e
    case SetName(name) => r.(name := name)
    case Update(nameInput, descInput, checked) =>
      r.(name := if nameInput == "" then r.name else nameInput,
         descricao := descInput,
         status := if |r.kids| == 0 then checked else r.status)
    case ToggleCollapsed => r.(collapsed := !r.collapsed)
    case _ => r
  }

  /** Edits that write fields of the node and leave its children alone. */
  predicate FieldEdit(e: NodeEdit)
  {
    e.SetName? || e.Update? || e.ToggleCollapsed?
  }

  /** Replacing a subtree by one with the same uids that differs in one record. */
  lemma GraftUpdate(r: map<Uid, Rec>, gone: set<Uid>, s: map<Uid, Rec>, u: Uid)
    requires s.Keys == gone && gone <= r.Keys && u in s
    requires forall v :: v in s && v != u ==> s[v] == r[v]
    ensures Graft(r, gone, s) == r[u := s[u]]
  {
    var g := Graft(r, gone, s);
    assert g.Keys == r.Keys;
    forall v | v in g
      ensures g[v] == r[u := s[u]][v]
    {
    }
  }

  lemma BagCancel(x: multiset<Uid>, y: multiset<Uid>, n: multiset<Uid>)
    requires x + n == y + n
    ensures x == y
  {
    forall v: Uid
      ensures x[v] == y[v]
    {
      assert (x + n)[v] == (y + n)[v];
    }
  }

  lemma FieldApply(e: NodeEdit, n: Task)
    requires FieldEdit(e) && n.uid.Some?
    ensures Apply(e, n).children == n.children && Apply(e, n).uid == n.uid
    ensures RecOf(Apply(e, n)) == ApplyRec(e, RecOf(n))
  {
  }

  lemma FieldEditAt(t: Task, u: Uid, e: NodeEdit, n: Task)
    requires Stamped(t) && Distinct(t) && FieldEdit(e) && FindByUid(t, u) == Some(n)
    ensures UidBag(MapAt(t, u, e)) == UidBag(t)
    ensures Stamped(MapAt(t, u, e)) && Distinct(MapAt(t, u, e))
    ensures u in Records(t) && Records(MapAt(t, u, e)) == Records(t)[u := ApplyRec(e, Records(t)[u])]
  {
    FindByUidFound(t, u);
    var a := Apply(e, n);
    StampedNodes(t, n);
    DistinctNode(t, n);
    FieldApply(e, n);
    SameChildrenRecords(n, a);
    EditRecords(t, u, e, n);
    BagCancel(UidBag(MapAt(t, u, e)), UidBag(t), UidBag(n));
    SubtreeRecords(t, n);
    NodeBag(t, n);
    GraftUpdate(Records(t), UidSet(n), Records(a), u);
  }

  /** Renaming, the Update button and the collapse toggle change the one record of the
      node they find, as `ApplyRec` says, and no other record; a uid that is not in the
      tree leaves the tree as it is. */
  lemma FieldEditRecords(t: Task, u: Uid, e: NodeEdit)
    requires Stamped(t) && Distinct(t) && FieldEdit(e)
    ensures UidBag(MapAt(t, u, e)) == UidBag(t)
    ensures Stamped(MapAt(t, u, e)) && Distinct(MapAt(t, u, e))
    ensures u in Records(t) ==> Records(MapAt(t, u, e)) == Records(t)[u := ApplyRec(e, Records(t)[u])]
    ensures u !in Records(t) ==> MapAt(t, u, e) == t
  {
    FindByUidFound(t, u);
    if u in UidBag(t) {
      FieldEditAt(t, u, e, FindByUid(t, u).value);
    } else {
      MapAtAbsent(t, u, e);
    }
  }

  /** A toggle keeps the percent and status of every node, the toggled one included,
      and flips only the toggled node's `collapsed`. */
  lemma ToggleKeepsDerivedEverywhere(t: Task, u: Uid)
    requires Stamped(t) && Distinct(t)
    ensures var r := Records(MapAt(t, u, ToggleCollapsed));
      && r.Keys == Records(t).Keys
      && (forall v :: v in Records(t) ==>
            r[v].percent == Records(t)[v].percent && r[v].status == Records(t)[v].status)
      && (u in Records(t) ==> r[u].collapsed == !Records(t)[u].collapsed)
  {
    FieldEditRecords(t, u, ToggleCollapsed);
  }

  /** Where `push` or `splice` puts a new child in a list of `n` children. */
  function AddPos(e: NodeEdit, n: nat): nat
  {
    if e.Insert? then e.pos else n
  }

  /** Edits that add one child. */
  predicate ChildAdd(e: NodeEdit)
  {
    e.Insert? || e.Append?
  }

  lemma AddApply(e: NodeEdit, n: Task)
    requires ChildAdd(e)
    ensures Apply(e, n).children == Splice(n.children, AddPos(e, |n.children|), e.child)
    ensures RecOf(Apply(e, n)) ==
      RecOf(n).(kids := Splice(RecOf(n).kids, AddPos(e, |n.children|), UidOf(e.child)))
  {
    if e.Append? {
      SpliceAtEnd(n.children, |n.children|, e.child);
    }
    KidUidsSplice(n.children, AddPos(e, |n.children|), e.child);
  }

  /** The subtree `c` has no uid in common with `t`. */
  ghost predicate Apart(t: Task, c: Task)
  {
    forall v :: v in UidBag(c) ==> v !in UidBag(t)
  }

  /** Replacing a subtree by one that has one more child `cr` and one changed record. */
  lemma GraftAdd(r: map<Uid, Rec>, gone: set<Uid>, s: map<Uid, Rec>, cr: map<Uid, Rec>, u: Uid)
    requires s.Keys == gone + cr.Keys && gone <= r.Keys && cr.Keys !! r.Keys && u in gone
    requires forall v :: v in cr ==> s[v] == cr[v]
    requires forall v :: v in gone && v != u ==> s[v] == r[v]
    ensures Graft(r, gone, s) == r[u := s[u]] + cr
  {
    var g := Graft(r, gone, s);
    var w := r[u := s[u]] + cr;
    assert g.Keys == w.Keys;
    forall v | v in g
      ensures g[v] == w[v]
    {
    }
  }

  lemma AddChildNode(t: Task, n: Task, e: NodeEdit, v: Uid)
    requires ChildAdd(e) && Stamped(n) && Stamped(e.child) && Distinct(e.child)
    requires Distinct(t) && n in PreOrder(t) && Apart(t, e.child)
    ensures UidBag(Apply(e, n))[v] == UidBag(n)[v] + UidBag(e.child)[v]
    ensures UidBag(Apply(e, n))[v] <= 1
    ensures v in UidBag(Apply(e, n)) && n.uid != Some(v) && Distinct(Apply(e, n)) ==>
      RecAt(Apply(e, n), v) == if v in UidBag(e.child) then RecAt(e.child, v) else RecAt(n, v)
  {
    AddApply(e, n);
    var cs := n.children;
    var k := if AddPos(e, |cs|) < |cs| then AddPos(e, |cs|) else |cs|;
    assert cs == cs[..k] + cs[k..];
    var a := Apply(e, n);
    assert a == n.(children := cs[..k] + [e.child] + cs[k..]);
    SpliceChildBag(n, cs[..k], e.child, cs[k..], a, v);
    NodeBag(t, n);
    assert UidBag(n)[v] <= UidBag(t)[v] <= 1;
    if Distinct(a) {
      SpliceChildRec(n, cs[..k], e.child, cs[k..], a, v);
    }
  }

  lemma AddChildStamped(n: Task, e: NodeEdit)
    requires ChildAdd(e) && Stamped(n) && Stamped(e.child)
    ensures Stamped(Apply(e, n))
  {
    AddApply(e, n);
    var a := Apply(e, n);
    var cs := n.children;
    var k := if AddPos(e, |cs|) < |cs| then AddPos(e, |cs|) else |cs|;
    forall i | 0 <= i < |a.children|
      ensures Stamped(a.children[i])
    {
      if i < k {
        assert a.children[i] == cs[i];
      } else if i > k {
        assert a.children[i] == cs[i - 1];
      }
    }
  }

  /** The edited node on its own: its uids and records after the child is added. */
  lemma AddChildSubtree(t: Task, n: Task, e: NodeEdit)
    requires ChildAdd(e) && Stamped(t) && Distinct(t) && n in PreOrder(t)
    requires Stamped(e.child) && Distinct(e.child) && Apart(t, e.child)
    ensures Stamped(Apply(e, n)) && Distinct(Apply(e, n))
    ensures UidBag(Apply(e, n)) == UidBag(n) + UidBag(e.child)
    ensures FreshFor(t, n, Apply(e, n))
    ensures forall v :: v in Records(e.child) ==> Records(Apply(e, n))[v] == Records(e.child)[v]
    ensures forall v :: v in UidSet(n) && Some(v) != n.uid ==> Records(Apply(e, n))[v] == Records(n)[v]
  {
    var a := Apply(e, n);
    var c := e.child;
    StampedNodes(t, n);
    AddChildStamped(n, e);
    forall v: Uid
      ensures UidBag(a)[v] == UidBag(n)[v] + UidBag(c)[v] && UidBag(a)[v] <= 1
    {
      AddChildNode(t, n, e, v);
    }
    assert UidBag(a) == UidBag(n) + UidBag(c);
    forall v | v in Records(a)
      ensures v in Records(c) ==> Records(a)[v] == Records(c)[v]
      ensures v in UidSet(n) && Some(v) != n.uid ==> Records(a)[v] == Records(n)[v]
    {
      AddChildNode(t, n, e, v);
    }
  }

  lemma AddChildAt(t: Task, d: Uid, e: NodeEdit, n: Task)
    requires ChildAdd(e) && Stamped(t) && Distinct(t) && FindByUid(t, d) == Some(n)
    requires Stamped(e.child) && Distinct(e.child) && Apart(t, e.child)
    ensures UidBag(MapAt(t, d, e)) == UidBag(t) + UidBag(e.child)
    ensures Stamped(MapAt(t, d, e)) && Distinct(MapAt(t, d, e))
    ensures d in Records(t)
    ensures Records(MapAt(t, d, e)) ==
      Records(t)[d := AddKid(Records(t)[d], AddPos(e, |Records(t)[d].kids|), UidOf(e.child))]
      + Records(e.child)
  {
    FindByUidFound(t, d);
    var a := Apply(e, n);
    var c := e.child;
    AddChildSubtree(t, n, e);
    AddApply(e, n);
    NodeBag(t, n);
    EditRecords(t, d, e, n);
    var r := MapAt(t, d, e);
    assert UidBag(r) + UidBag(n) == (UidBag(t) + UidBag(c)) + UidBag(n);
    BagCancel(UidBag(r), UidBag(t) + UidBag(c), UidBag(n));
    SubtreeRecords(t, n);
    GraftAdd(Records(t), UidSet(n), Records(a), Records(c), d);
  }

  /** The create actions and the drop of a dragged node: the node carrying `d` gets
      the new subtree `c` among its children, at the place `push` or `splice` puts it;
      every record of `c` is added and no other record changes. Without a node `d`
      nothing changes. */
  lemma AddChildRecords(t: Task, d: Uid, e: NodeEdit)
    requires ChildAdd(e) && Stamped(t) && Distinct(t)
    requires Stamped(e.child) && Distinct(e.child) && Apart(t, e.child)
    ensures d in Records(t) ==>
      && UidBag(MapAt(t, d, e)) == UidBag(t) + UidBag(e.child)
      && Stamped(MapAt(t, d, e)) && Distinct(MapAt(t, d, e))
      && Records(MapAt(t, d, e)) ==
         Records(t)[d := AddKid(Records(t)[d], AddPos(e, |Records(t)[d].kids|), UidOf(e.child))]
         + Records(e.child)
    ensures d !in Records(t) ==> MapAt(t, d, e) == t
  {
    FindByUidFound(t, d);
    if d in UidBag(t) {
      AddChildAt(t, d, e, FindByUid(t, d).value);
    } else {
      MapAtAbsent(t, d, e);
    }
  }

  // ---------------------------------------------------------------- detaching

  /** In a tree with distinct uids every node other than the root has a parent. */
  lemma {:induction false} NonRootHasParent(t: Task, x: Uid)
    requires Distinct(t) && x in UidBag(t) && t.uid != Some(x)
    ensures FindParentByUid(t, x).Some?
    decreases t
  {
    assert x in UidBagAll(t.children);
    BagAllMember(t.children, x);
    var j :| 0 <= j < |t.children| && x in UidBag(t.children[j]);
    var c := t.children[j];
    if c.uid == Some(x) {
      FindParentByUidComplete(t, t, x);
    } else {
      DistinctChild(t, j);
      NonRootHasParent(c, x);
      FindParentByUidSound(c, x);
      var q := FindParentByUid(c, x).value;
      ChildIsNode(t, t, j);
      NodeOfNode(t, c, q);
      FindParentByUidComplete(t, q, x);
    }
  }

  /** The root and a uid that is not in the tree: `Detach` changes nothing. */
  lemma DetachNothing(t: Task, x: Uid)
    requires Distinct(t) && (x !in UidBag(t) || t.uid == Some(x))
    ensures Detach(t, x) == t
  {
    if x in UidBag(t) {
      RootHasNoParent(t, x);
    } else {
      NoParentOutside(t, x);
    }
  }

  lemma {:induction false} OmitAppend(ks: seq<Uid>, y: Uid, x: Uid)
    ensures Omit(ks + [y], x) == Omit(ks, x) + (if y == x then [] else [y])
  {
    if |ks| == 0 {
      assert ks + [y] == [y] && [y][1..] == [];
    } else {
      assert (ks + [y])[0] == ks[0] && (ks + [y])[1..] == ks[1..] + [y];
      OmitAppend(ks[1..], y, x);
    }
  }

  /** The parent `pn` of `m` on its own, before and after `m` is filtered out of its
      children. */
  lemma DetachSubtree(t: Task, x: Uid, m: Task, pn: Task) returns (k: nat)
    requires Stamped(t) && Distinct(t) && FindByUid(t, x) == Some(m) && FindParentByUid(t, x) == Some(pn)
    ensures pn in PreOrder(t) && Stamped(pn) && Distinct(pn)
    ensures k < |pn.children| && pn.children[k] == m
    ensures Apply(Drop(x), pn).children == pn.children[..k] + pn.children[k + 1..]
    ensures pn == Apply(Drop(x), pn).(children := pn.children[..k] + [m] + pn.children[k + 1..])
    ensures forall i :: 0 <= i < |pn.children| ==> (pn.children[i].uid == Some(x) <==> i == k)
  {
    FindByUidFound(t, x);
    FindParentByUidSound(t, x);
    StampedNodes(t, pn);
    DistinctNode(t, pn);
    var cs := pn.children;
    k :| 0 <= k < |cs| && cs[k].uid == Some(x);
    forall i | 0 <= i < |cs| && i != k
      ensures cs[i].uid != Some(x)
    {
      OnlyInOneChild(pn, k, i, x);
    }
    WithoutOne(cs, k, x);
    ChildIsNode(t, pn, k);
    FindUnique(t, cs[k], x);
    assert cs == cs[..k] + [cs[k]] + cs[k + 1..];
  }

  lemma DetachNode(t: Task, x: Uid, m: Task, pn: Task)
    requires Stamped(t) && Distinct(t) && FindByUid(t, x) == Some(m) && FindParentByUid(t, x) == Some(pn)
    ensures pn in PreOrder(t) && pn.uid.Some?
    ensures Stamped(Apply(Drop(x), pn)) && Distinct(Apply(Drop(x), pn))
    ensures UidBag(Apply(Drop(x), pn)) + UidBag(m) == UidBag(pn)
    ensures FreshFor(t, pn, Apply(Drop(x), pn))
    ensures UidOf(pn) !in UidSet(m) && x in UidSet(m)
    ensures RecOf(Apply(Drop(x), pn)) == RecOf(pn).(kids := Omit(RecOf(pn).kids, x))
    ensures forall v :: v in Records(Apply(Drop(x), pn)) && v != UidOf(pn) ==>
      v in Records(pn) && Records(Apply(Drop(x), pn))[v] == Records(pn)[v]
  {
    DetachNodeBag(t, x, m, pn);
    DetachNodeRecords(t, x, m, pn);
  }

  /** The uids of the parent after `filter`: those of the parent less those of `m`. */
  lemma DetachNodeBag(t: Task, x: Uid, m: Task, pn: Task)
    requires Stamped(t) && Distinct(t) && FindByUid(t, x) == Some(m) && FindParentByUid(t, x) == Some(pn)
    ensures pn in PreOrder(t) && pn.uid.Some?
    ensures Stamped(Apply(Drop(x), pn)) && Distinct(Apply(Drop(x), pn))
    ensures UidBag(Apply(Drop(x), pn)) + UidBag(m) == UidBag(pn)
    ensures FreshFor(t, pn, Apply(Drop(x), pn))
    ensures UidOf(pn) !in UidSet(m) && x in UidSet(m)
  {
    var k := DetachSubtree(t, x, m, pn);
    var a := Apply(Drop(x), pn);
    var cs := pn.children;
    FindByUidFound(t, x);
    forall v: Uid
      ensures UidBag(a)[v] + UidBag(m)[v] == UidBag(pn)[v]
      ensures UidBag(pn)[v] <= 1
    {
      SpliceChildBag(a, cs[..k], m, cs[k + 1..], pn, v);
    }
    assert UidBag(a) + UidBag(m) == UidBag(pn);
    NodeBag(t, pn);
    forall i | 0 <= i < |a.children|
      ensures Stamped(a.children[i])
    {
      if i < k {
        assert a.children[i] == cs[i];
      } else {
        assert a.children[i] == cs[i + 1];
      }
    }
  }

  /** The records of the parent after `filter`: its own loses `x` from its kids and the
      others it keeps are unchanged. */
  lemma DetachNodeRecords(t: Task, x: Uid, m: Task, pn: Task)
    requires Stamped(t) && Distinct(t) && FindByUid(t, x) == Some(m) && FindParentByUid(t, x) == Some(pn)
    ensures RecOf(Apply(Drop(x), pn)) == RecOf(pn).(kids := Omit(RecOf(pn).kids, x))
    ensures forall v :: v in Records(Apply(Drop(x), pn)) && v != UidOf(pn) ==>
      v in Records(pn) && Records(Apply(Drop(x), pn))[v] == Records(pn)[v]
  {
    var k := DetachSubtree(t, x, m, pn);
    DetachNodeBag(t, x, m, pn);
    var a := Apply(Drop(x), pn);
    var cs := pn.children;
    KidUidsWithout(cs, x);
    forall v | v in Records(a) && v != UidOf(pn)
      ensures v in Records(pn) && Records(a)[v] == Records(pn)[v]
    {
      assert UidBag(a)[v] + UidBag(m)[v] == UidBag(pn)[v] <= 1;
      SpliceChildRec(a, cs[..k], m, cs[k + 1..], pn, v);
    }
  }

  /** Removing a subtree from a table: the records dropped and one record rewritten. */
  lemma GraftDrop(r: map<Uid, Rec>, gone: set<Uid>, s: map<Uid, Rec>, dropped: set<Uid>, u: Uid)
    requires s.Keys == gone - dropped && dropped <= gone && gone <= r.Keys && u in s
    requires forall v :: v in s && v != u ==> s[v] == r[v]
    ensures Graft(r, gone, s) == (r - dropped)[u := s[u]]
  {
    var g := Graft(r, gone, s);
    var w := (r - dropped)[u := s[u]];
    assert g.Keys == w.Keys;
    forall v | v in g
      ensures g[v] == w[v]
    {
    }
  }

  /** `findParentByUid` plus `filter`, as the remove action and the move handler do it:
      the records of the subtree `m` go, the parent's child list loses `x`, and no
      other record changes. */
  lemma DetachRecords(t: Task, x: Uid, m: Task, pn: Task)
    requires Stamped(t) && Distinct(t) && FindByUid(t, x) == Some(m) && FindParentByUid(t, x) == Some(pn)
    ensures UidBag(Detach(t, x)) + UidBag(m) == UidBag(t)
    ensures Stamped(Detach(t, x)) && Distinct(Detach(t, x))
    ensures UidOf(pn) in Records(t) && UidOf(pn) !in UidSet(m) && x in UidSet(m)
    ensures Records(Detach(t, x)) ==
      (Records(t) - UidSet(m))[UidOf(pn) := DropKid(Records(t)[UidOf(pn)], x)]
  {
    DetachNode(t, x, m, pn);
    var p := UidOf(pn);
    var a := Apply(Drop(x), pn);
    DistinctNode(t, pn);
    FindUnique(t, pn, p);
    FindByUidFound(t, p);
    assert Detach(t, x) == MapAt(t, p, Drop(x));
    EditRecords(t, p, Drop(x), pn);
    var r := MapAt(t, p, Drop(x));
    assert UidBag(r) + UidBag(m) + UidBag(a) == UidBag(t) + UidBag(a);
    BagCancel(UidBag(r) + UidBag(m), UidBag(t), UidBag(a));
    SubtreeRecords(t, pn);
    NodeBag(t, pn);
    GraftDrop(Records(t), UidSet(pn), Records(a), UidSet(m), p);
  }

  // ---------------------------------------------------------------- moving

  /** The table after `x` is taken from the kids of `p` and added to those of `d` by `e`. */
  ghost function MovedRecords(r: map<Uid, Rec>, x: Uid, p: Uid, d: Uid, e: NodeEdit): map<Uid, Rec>
    requires p in r && d in r
  {
    var rp := DropKid(r[p], x);
    var rd := if d == p then rp else r[d];
    r[p := rp][d := AddKid(rd, AddPos(e, |rd.kids|), x)]
  }

  lemma GraftBack(r: map<Uid, Rec>, sm: map<Uid, Rec>, r1: map<Uid, Rec>, p: Uid, d: Uid, rp: Rec, nd: Rec)
    requires p in r && d in r && p !in sm && d !in sm
    requires forall v :: v in sm ==> v in r && sm[v] == r[v]
    requires r1 == (r - sm.Keys)[p := rp]
    ensures r1[d := nd] + sm == r[p := rp][d := nd]
  {
    var g := r1[d := nd] + sm;
    var w := r[p := rp][d := nd];
    assert g.Keys == w.Keys by {
      assert w.Keys == r.Keys;
      assert r1.Keys == (r.Keys - sm.Keys) + {p};
    }
    forall v | v in g
      ensures g[v] == w[v]
    {
      if v !in sm && v != d && v != p {
        assert v in r1 && r1[v] == r[v];
      }
    }
  }

  /** Moving `m` (uid `x`) from its parent to the node `d` outside its subtree keeps
      every uid and every record except the two child lists involved. */
  lemma RelocateRecords(t: Task, x: Uid, m: Task, pn: Task, d: Uid, e: NodeEdit)
    requires Stamped(t) && Distinct(t) && FindByUid(t, x) == Some(m) && FindParentByUid(t, x) == Some(pn)
    requires d in UidBag(t) && d !in UidBag(m) && ChildAdd(e) && e.child == m
    ensures UidBag(Relocate(t, x, d, e)) == UidBag(t)
    ensures Stamped(Relocate(t, x, d, e)) && Distinct(Relocate(t, x, d, e))
    ensures UidOf(pn) in Records(t) && d in Records(t)
    ensures Records(Relocate(t, x, d, e)) == MovedRecords(Records(t), x, UidOf(pn), d, e)
  {
    FindByUidFound(t, x);
    DetachRecords(t, x, m, pn);
    var t1 := Detach(t, x);
    StampedNodes(t, m);
    DistinctNode(t, m);
    forall v | v in UidBag(m)
      ensures v !in UidBag(t1)
    {
      assert (UidBag(t1) + UidBag(m))[v] == UidBag(t)[v] <= 1;
    }
    assert (UidBag(t1) + UidBag(m))[d] == UidBag(t)[d];
    AddChildRecords(t1, d, e);
    assert UidBag(Relocate(t, x, d, e)) == UidBag(t1) + UidBag(m);
    SubtreeRecords(t, m);
    var p := UidOf(pn);
    var rp := DropKid(Records(t)[p], x);
    var rd := if d == p then rp else Records(t)[d];
    assert Records(t1)[d] == rd;
    GraftBack(Records(t), Records(m), Records(t1), p, d, rp, AddKid(rd, AddPos(e, |rd.kids|), x));
  }
  lemma {:induction false} OmitFacts(ks: seq<Uid>, x: Uid)
    ensures x !in Omit(ks, x)
    ensures forall y :: y != x ==> (y in Omit(ks, x) <==> y in ks)
  {
    if |ks| > 0 {
      OmitFacts(ks[1..], x);
      assert ks == [ks[0]] + ks[1..];
    }
  }

  lemma SpliceMember(ks: seq<Uid>, pos: nat, x: Uid)
    ensures forall y :: y in Splice(ks, pos, x) <==> y == x || y in ks
  {
    var k := if pos < |ks| then pos else |ks|;
    assert ks == ks[..k] + ks[k..];
  }

  /** A child list in the table names exactly the children `findParentByUid` finds:
      `x` is among the kids of `q` if and only if the parent of `x` is the node `q`. */
  lemma ParentFromRecords(t: Task, x: Uid, q: Uid)
    requires Stamped(t) && Distinct(t)
    ensures q in Records(t) && x in Records(t)[q].kids <==>
      FindParentByUid(t, x).Some? && FindParentByUid(t, x).value.uid == Some(q)
  {
    FindByUidFound(t, q);
    if q in Records(t) && x in Records(t)[q].kids {
      var n := FindByUid(t, q).value;
      var i :| 0 <= i < |n.children| && KidUids(n.children)[i] == x;
      StampedNodes(t, n);
      assert n.children[i].uid == Some(x);
      FindParentByUidComplete(t, n, x);
    }
    if FindParentByUid(t, x).Some? && FindParentByUid(t, x).value.uid == Some(q) {
      var pn := FindParentByUid(t, x).value;
      FindParentByUidSound(t, x);
      FindUnique(t, pn, q);
      NodeBag(t, pn);
      var i :| 0 <= i < |pn.children| && pn.children[i].uid == Some(x);
      assert KidUids(pn.children)[i] == x;
    }
  }

  /** After a move every record but the destination's lacks `x` among its kids, and
      the destination's has it: the moved node has exactly one parent. */
  lemma MovedHasOneParent(t: Task, x: Uid, m: Task, pn: Task, d: Uid, e: NodeEdit)
    requires Stamped(t) && Distinct(t) && FindByUid(t, x) == Some(m) && FindParentByUid(t, x) == Some(pn)
    requires d in UidBag(t) && d !in UidBag(m) && ChildAdd(e) && e.child == m
    ensures var r := Relocate(t, x, d, e);
      forall q :: q in Records(r) ==> (x in Records(r)[q].kids <==> q == d)
    ensures FindParentByUid(Relocate(t, x, d, e), x).Some?
    ensures FindParentByUid(Relocate(t, x, d, e), x).value.uid == Some(d)
  {
    RelocateRecords(t, x, m, pn, d, e);
    var r := Relocate(t, x, d, e);
    var p := UidOf(pn);
    FindParentByUidSound(t, x);
    StampedNodes(t, pn);
    forall q | q in Records(r)
      ensures x in Records(r)[q].kids <==> q == d
    {
      ParentFromRecords(t, x, q);
      var rt := Records(t);
      OmitFacts(rt[p].kids, x);
      var rd := if d == p then DropKid(rt[p], x) else rt[d];
      SpliceMember(rd.kids, AddPos(e, |rd.kids|), x);
    }
    ParentFromRecords(r, x, d);
  }
}
