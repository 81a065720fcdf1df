/** `_uid` stamps: the counter behind `generateUid`, `assignUIDs`
    (assets/js/task-tree-jstree.js) and `ensureNodeUid` (assets/js/task-ui-controls.js),
    and the uniqueness facts that make a uid stand for one node. */
module Identity {
  import opened Basics
  import opened TaskModel

  /** The uids carried by the nodes of a tree, with multiplicity. */
  function UidBag(t: Task): multiset<Uid>
    decreases t, 1
  {
    (if t.uid.Some? then multiset{t.uid.value} else multiset{}) + UidBagAll(t.children)
  }

  function UidBagAll(cs: seq<Task>): multiset<Uid>
    decreases cs, 0
  {
    if |cs| == 0 then multiset{} else UidBag(cs[0]) + UidBagAll(cs[1..])
  }

  /** Every node carries a uid. */
  predicate Stamped(t: Task)
  {
    t.uid.Some? && forall i :: 0 <= i < |t.children| ==> Stamped(t.children[i])
  }

  /** No uid is carried by two nodes. */
  ghost predicate Distinct(t: Task)
  {
    forall u: Uid :: UidBag(t)[u] <= 1
  }

  /** Every uid in the tree was issued by a counter that now stands at `c`. */
  ghost predicate IssuedBy(t: Task, c: nat)
  {
    forall u: Uid :: u in UidBag(t) ==> u <= c
  }

  /** The uids `lo + 1 .. hi` that `generateUid` hands out while the counter moves
      from `lo` to `hi`, each once. */
  function Issued(lo: nat, hi: nat): multiset<Uid>
    decreases hi
  {
    if hi <= lo then multiset{} else Issued(lo, hi - 1) + multiset{hi}
  }

  /** The tree with every `_uid` removed. */
  function Unstamped(t: Task): Task
  {
    t.(uid := None, children := seq(|t.children|, i requires 0 <= i < |t.children| => Unstamped(t.children[i])))
  }

  /** `r` is `t` with uids filled in where `t` had none: every existing uid is kept and
      no other field changes. */
  predicate StampedFrom(t: Task, r: Task)
  {
    && r.uid.Some?
    && (t.uid.Some? ==> r.uid == t.uid)
    && r.(uid := t.uid, children := t.children) == t
    && |r.children| == |t.children|
    && forall i :: 0 <= i < |t.children| ==> StampedFrom(t.children[i], r.children[i])
  }

  /** What `assignUIDs(node)` leaves in the tree and in the counter: a pre-order walk
      that gives each node without a uid the next counter value. */
  function Stamp(t: Task, c: nat): (Task, nat)
    decreases t, 1
  {
    var (u, c1) := if t.uid.Some? then (t.uid.value, c) else (c + 1, c + 1);
    var (cs, c2) := StampAll(t.children, c1);
    (t.(uid := Some(u), children := cs), c2)
  }

  function StampAll(cs: seq<Task>, c: nat): (seq<Task>, nat)
    decreases cs, 0
  {
    if |cs| == 0 then ([], c)
    else
      var (h, c1) := Stamp(cs[0], c);
      var (rest, c2) := StampAll(cs[1..], c1);
      ([h] + rest, c2)
  }

  /** `ensureNodeUid(node)`: a node that has a uid is left as it is; otherwise only its
      uid is set, to a value no earlier stamp used. */
  function EnsureUid(t: Task, c: nat): (res: (Task, nat))
    ensures res.0.uid.Some? && res.0.(uid := t.uid) == t
    ensures t.uid.Some? ==> res == (t, c)
    ensures t.uid.None? ==> res.1 == c + 1 && res.0.uid == Some(res.1)
  {
    if t.uid.Some? then (t, c) else (t.(uid := Some(c + 1)), c + 1)
  }

  lemma EnsureUidIdempotent(t: Task, c: nat, c': nat)
    ensures EnsureUid(EnsureUid(t, c).0, c') == (EnsureUid(t, c).0, c')
  {
  }

  lemma {:induction false} IssuedCount(lo: nat, hi: nat, x: Uid)
    ensures Issued(lo, hi)[x] == if lo < x <= hi then 1 else 0
    decreases hi
  {
    if lo < hi {
      IssuedCount(lo, hi - 1, x);
    }
  }

  lemma {:induction false} IssuedSplit(a: nat, b: nat, c: nat)
    requires a <= b <= c
    ensures Issued(a, b) + Issued(b, c) == Issued(a, c)
    decreases c
  {
    if b < c {
      IssuedSplit(a, b, c - 1);
      assert Issued(b, c) == Issued(b, c - 1) + multiset{c};
      assert Issued(a, c) == Issued(a, c - 1) + multiset{c};
    }
  }

  lemma {:induction false} UidBagAllConcat(a: seq<Task>, b: seq<Task>)
    ensures UidBagAll(a + b) == UidBagAll(a) + UidBagAll(b)
  {
    if |a| > 0 {
      assert (a + b)[0] == a[0] && (a + b)[1..] == a[1..] + b;
      UidBagAllConcat(a[1..], b);
    } else {
      assert a + b == b;
    }
  }

  /** The counter arithmetic of one stamping step: the node's own uid, kept or issued,
      joins the uids issued below it. */
  lemma IssuedStep(c: nat, c1: nat, c2: nat, own: multiset<Uid>, u: Uid, kids: multiset<Uid>)
    requires c1 <= c2
    requires (own == multiset{u} && c1 == c) || (own == multiset{} && u == c + 1 && c1 == c + 1)
    ensures multiset{u} + (kids + Issued(c1, c2)) == (own + kids) + Issued(c, c2)
  {
    IssuedSplit(c, c1, c2);
    if own == multiset{} {
      assert Issued(c, c1) == multiset{u};
    }
  }

  lemma BagSum(a: multiset<Uid>, ia: multiset<Uid>, b: multiset<Uid>, ib: multiset<Uid>, i: multiset<Uid>)
    requires ia + ib == i
    ensures (a + ia) + (b + ib) == (a + b) + i
  {
  }

  /** Stamping fills in every missing uid, keeps the existing ones and changes nothing
      else, and the counter never goes back. */
  lemma {:induction false} StampShape(t: Task, c: nat)
    ensures var (r, c') := Stamp(t, c);
      c <= c' && Stamped(r) && StampedFrom(t, r)
    decreases t, 1
  {
    var (u, c1) := if t.uid.Some? then (t.uid.value, c) else (c + 1, c + 1);
    StampAllShape(t.children, c1);
  }

  lemma {:induction false} StampAllShape(cs: seq<Task>, c: nat)
    ensures var (rs, c') := StampAll(cs, c);
      && c <= c' && |rs| == |cs|
      && forall i :: 0 <= i < |cs| ==> Stamped(rs[i]) && StampedFrom(cs[i], rs[i])
    decreases cs, 0
  {
    if |cs| > 0 {
      StampShape(cs[0], c);
      var (h, c1) := Stamp(cs[0], c);
      StampAllShape(cs[1..], c1);
      var (rest, c2) := StampAll(cs[1..], c1);
      assert ([h] + rest)[1..] == rest;
    }
  }

  /** The uids after stamping are the old ones and the counter values issued, each once. */
  lemma {:induction false} StampBag(t: Task, c: nat)
    ensures var (r, c') := Stamp(t, c);
      UidBag(r) == UidBag(t) + Issued(c, c')
    decreases t, 1
  {
    var (u, c1) := if t.uid.Some? then (t.uid.value, c) else (c + 1, c + 1);
    StampAllBag(t.children, c1);
    StampAllShape(t.children, c1);
    var (cs, c2) := StampAll(t.children, c1);
    var own := if t.uid.Some? then multiset{u} else multiset{};
    IssuedStep(c, c1, c2, own, u, UidBagAll(t.children));
  }

  lemma {:induction false} StampAllBag(cs: seq<Task>, c: nat)
    ensures var (rs, c') := StampAll(cs, c);
      UidBagAll(rs) == UidBagAll(cs) + Issued(c, c')
    decreases cs, 0
  {
    if |cs| > 0 {
      StampBag(cs[0], c);
      StampShape(cs[0], c);
      var (h, c1) := Stamp(cs[0], c);
      StampAllBag(cs[1..], c1);
      StampAllShape(cs[1..], c1);
      var (rest, c2) := StampAll(cs[1..], c1);
      IssuedSplit(c, c1, c2);
      assert ([h] + rest)[1..] == rest;
      BagSum(UidBag(cs[0]), Issued(c, c1), UidBagAll(cs[1..]), Issued(c1, c2), Issued(c, c2));
    }
  }

  /** Stamping fills in every missing uid, keeps the existing ones and changes nothing
      else; the new uids are exactly the counter values it issued, each used once. */
  lemma StampFacts(t: Task, c: nat)
    ensures var (r, c') := Stamp(t, c);
      && c <= c' && Stamped(r) && StampedFrom(t, r)
      && UidBag(r) == UidBag(t) + Issued(c, c')
  {
    StampShape(t, c);
    StampBag(t, c);
  }

  /** Stamping a tree whose uids are distinct and already issued keeps them distinct:
      no two generated uids coincide and none collides with an earlier one. */
  lemma StampKeepsDistinct(t: Task, c: nat)
    requires Distinct(t) && IssuedBy(t, c)
    ensures var (r, c') := Stamp(t, c); Distinct(r) && IssuedBy(r, c')
  {
    StampFacts(t, c);
    var (r, c') := Stamp(t, c);
    forall u: Uid
      ensures UidBag(r)[u] <= 1 && (u in UidBag(r) ==> u <= c')
    {
      IssuedCount(c, c', u);
    }
  }

  lemma {:induction false} StampAllSnoc(a: seq<Task>, x: Task, c: nat)
    ensures var (ra, c1) := StampAll(a, c);
            var (rx, c2) := Stamp(x, c1);
            StampAll(a + [x], c) == (ra + [rx], c2)
  {
    if |a| == 0 {
      assert a + [x] == [x] && [x][0] == x && [x][1..] == [];
      var (rx, c2) := Stamp(x, c);
      assert StampAll([x][1..], c2) == ([], c2);
      assert [rx] + [] == [rx];
      assert StampAll([x], c) == ([rx], c2);
      assert StampAll(a, c) == ([], c);
      assert [] + [rx] == [rx];
    } else {
      assert (a + [x])[0] == a[0] && (a + [x])[1..] == a[1..] + [x];
      var (h, c0) := Stamp(a[0], c);
      StampAllSnoc(a[1..], x, c0);
      var (ra', c1) := StampAll(a[1..], c0);
      var (rx, c2) := Stamp(x, c1);
      assert StampAll(a[1..] + [x], c0) == (ra' + [rx], c2);
      assert StampAll(a, c) == ([h] + ra', c1);
      assert [h] + (ra' + [rx]) == ([h] + ra') + [rx];
    }
  }

  /** `assignUIDs(node)`: stamps the node if it has no uid (advancing the counter, as
      `generateUid` does), then walks its children in order. */
  method AssignUids(node: Task, counter: nat) returns (r: Task, next: nat)
    ensures (r, next) == Stamp(node, counter)
    decreases node
  {
    var uid := node.uid;
    next := counter;
    if uid.None? {
      next := next + 1;
      uid := Some(next);
    }
    var first := next;
    var stamped: seq<Task> := [];
    for i := 0 to |node.children|
      invariant (stamped, next) == StampAll(node.children[..i], first)
    {
      StampAllSnoc(node.children[..i], node.children[i], first);
      assert node.children[..i + 1] == node.children[..i] + [node.children[i]];
      var child;
      child, next := AssignUids(node.children[i], next);
      stamped := stamped + [child];
    }
    assert node.children[..|node.children|] == node.children;
    r := node.(uid := uid, children := stamped);
  }
}
