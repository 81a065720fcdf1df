/** The outline view's projection of the tree (assets/js/task-tree-jstree.js):
    `escapeHtml`, `toJsTree`, the completion column's `format`, and the choice
    `notifyTreeChange` (assets/js/task-ui-controls.js) makes between a branch sync and
    a full refresh. */
module Outline {
  import opened Basics
  import opened TaskModel
  import opened Identity
  import opened Lookup

  // ---------------------------------------------------------------- escapeHtml

  /** `s.replace(/c/g, rep)` for a one-character pattern. */
  function ReplaceAll(s: string, c: char, rep: string): string
  {
    if |s| == 0 then ""
    else (if s[0] == c then rep else [s[0]]) + ReplaceAll(s[1..], c, rep)
  }

  /** `escapeHtml(value)`: five global replaces, `&` first. */
  function EscapeHtml(s: string): string
  {
    var s1 := ReplaceAll(s, '&', "&amp;");
    var s2 := ReplaceAll(s1, '<', "&lt;");
    var s3 := ReplaceAll(s2, '>', "&gt;");
    var s4 := ReplaceAll(s3, '"', "&quot;");
    ReplaceAll(s4, '\'', "&#39;")
  }

  /** The entity one character becomes. */
  function EscapeChar(c: char): string
  {
    if c == '&' then "&amp;"
    else if c == '<' then "&lt;"
    else if c == '>' then "&gt;"
    else if c == '"' then "&quot;"
    else if c == '\'' then "&#39;"
    else [c]
  }

  /** Escaping character by character, each character once. */
  function EscapeEach(s: string): string
  {
    if |s| == 0 then "" else EscapeChar(s[0]) + EscapeEach(s[1..])
  }

  /** Reading the five entities back. */
  function Unescape(s: string): string
  {
    if |s| == 0 then ""
    else if |s| >= 5 && s[..5] == "&amp;" then "&" + Unescape(s[5..])
    else if |s| >= 4 && s[..4] == "&lt;" then "<" + Unescape(s[4..])
    else if |s| >= 4 && s[..4] == "&gt;" then ">" + Unescape(s[4..])
    else if |s| >= 6 && s[..6] == "&quot;" then "\"" + Unescape(s[6..])
    else if |s| >= 5 && s[..5] == "&#39;" then "'" + Unescape(s[5..])
    else [s[0]] + Unescape(s[1..])
  }

  lemma {:induction false} ReplaceAllConcat(a: string, b: string, c: char, rep: string)
    ensures ReplaceAll(a + b, c, rep) == ReplaceAll(a, c, rep) + ReplaceAll(b, c, rep)
  {
    if |a| == 0 {
      assert a + b == b;
    } else {
      assert (a + b)[0] == a[0] && (a + b)[1..] == a[1..] + b;
      ReplaceAllConcat(a[1..], b, c, rep);
    }
  }

  lemma EscapeHtmlConcat(a: string, b: string)
    ensures EscapeHtml(a + b) == EscapeHtml(a) + EscapeHtml(b)
  {
    ReplaceAllConcat(a, b, '&', "&amp;");
    var a1, b1 := ReplaceAll(a, '&', "&amp;"), ReplaceAll(b, '&', "&amp;");
    ReplaceAllConcat(a1, b1, '<', "&lt;");
    var a2, b2 := ReplaceAll(a1, '<', "&lt;"), ReplaceAll(b1, '<', "&lt;");
    ReplaceAllConcat(a2, b2, '>', "&gt;");
    var a3, b3 := ReplaceAll(a2, '>', "&gt;"), ReplaceAll(b2, '>', "&gt;");
    ReplaceAllConcat(a3, b3, '"', "&quot;");
    var a4, b4 := ReplaceAll(a3, '"', "&quot;"), ReplaceAll(b3, '"', "&quot;");
    ReplaceAllConcat(a4, b4, '\'', "&#39;");
  }

  /** A replace whose pattern does not occur changes nothing. */
  lemma {:induction false} ReplaceAbsent(s: string, c: char, rep: string)
    requires forall i :: 0 <= i < |s| ==> s[i] != c
    ensures ReplaceAll(s, c, rep) == s
  {
    if |s| > 0 {
      ReplaceAbsent(s[1..], c, rep);
      assert s == [s[0]] + s[1..];
    }
  }

  lemma {:induction false} ReplaceOne(c: char, p: char, rep: string)
    ensures ReplaceAll([c], p, rep) == if c == p then rep else [c]
  {
    assert [c][1..] == [];
  }

  /** The five passes on a one-character string `[c]`, given what each pass makes of it. */
  lemma EscapeSteps(c: char, s1: string, s2: string, s3: string, s4: string, s5: string)
    requires ReplaceAll([c], '&', "&amp;") == s1 && ReplaceAll(s1, '<', "&lt;") == s2
    requires ReplaceAll(s2, '>', "&gt;") == s3 && ReplaceAll(s3, '"', "&quot;") == s4
    requires ReplaceAll(s4, '\'', "&#39;") == s5
    ensures EscapeHtml([c]) == s5
  {
  }

  /** The passes after the first leave alone a string without `<`, `>`, `"` and `'`. */
  lemma LaterPassesKeep(e: string)
    requires forall i :: 0 <= i < |e| ==> e[i] != '<' && e[i] != '>' && e[i] != '"' && e[i] != '\''
    ensures ReplaceAll(e, '<', "&lt;") == e && ReplaceAll(e, '>', "&gt;") == e
    ensures ReplaceAll(e, '"', "&quot;") == e && ReplaceAll(e, '\'', "&#39;") == e
  {
    ReplaceAbsent(e, '<', "&lt;");
    ReplaceAbsent(e, '>', "&gt;");
    ReplaceAbsent(e, '"', "&quot;");
    ReplaceAbsent(e, '\'', "&#39;");
  }

  lemma EscapeAmp(c: char)
    requires c == '&'
    ensures EscapeHtml([c]) == EscapeChar(c)
  {
    var e := EscapeChar(c);
    ReplaceOne(c, '&', "&amp;");
    assert forall i :: 0 <= i < |e| ==> e[i] in {'&', 'a', 'm', 'p', ';'};
    LaterPassesKeep(e);
    EscapeSteps(c, e, e, e, e, e);
  }

  lemma EscapeLt(c: char)
    requires c == '<'
    ensures EscapeHtml([c]) == EscapeChar(c)
  {
    var e := EscapeChar(c);
    ReplaceOne(c, '&', "&amp;");
    ReplaceOne(c, '<', "&lt;");
    assert forall i :: 0 <= i < |e| ==> e[i] in {'&', 'l', 't', ';'};
    ReplaceAbsent(e, '>', "&gt;");
    ReplaceAbsent(e, '"', "&quot;");
    ReplaceAbsent(e, '\'', "&#39;");
    EscapeSteps(c, [c], e, e, e, e);
  }

  lemma EscapeGt(c: char)
    requires c == '>'
    ensures EscapeHtml([c]) == EscapeChar(c)
  {
    var e := EscapeChar(c);
    ReplaceOne(c, '&', "&amp;");
    ReplaceOne(c, '<', "&lt;");
    ReplaceOne(c, '>', "&gt;");
    assert forall i :: 0 <= i < |e| ==> e[i] in {'&', 'g', 't', ';'};
    ReplaceAbsent(e, '"', "&quot;");
    ReplaceAbsent(e, '\'', "&#39;");
    EscapeSteps(c, [c], [c], e, e, e);
  }

  lemma EscapeQuot(c: char)
    requires c == '"'
    ensures EscapeHtml([c]) == EscapeChar(c)
  {
    var e := EscapeChar(c);
    ReplaceOne(c, '&', "&amp;");
    ReplaceOne(c, '<', "&lt;");
    ReplaceOne(c, '>', "&gt;");
    ReplaceOne(c, '"', "&quot;");
    assert forall i :: 0 <= i < |e| ==> e[i] in {'&', 'q', 'u', 'o', 't', ';'};
    ReplaceAbsent(e, '\'', "&#39;");
    EscapeSteps(c, [c], [c], [c], e, e);
  }

  lemma EscapeApos(c: char)
    requires c == '\''
    ensures EscapeHtml([c]) == EscapeChar(c)
  {
    ReplaceOne(c, '&', "&amp;");
    ReplaceOne(c, '<', "&lt;");
    ReplaceOne(c, '>', "&gt;");
    ReplaceOne(c, '"', "&quot;");
    ReplaceOne(c, '\'', "&#39;");
    EscapeSteps(c, [c], [c], [c], [c], EscapeChar(c));
  }

  lemma EscapePlain(c: char)
    requires c != '&' && c != '<' && c != '>' && c != '"' && c != '\''
    ensures EscapeHtml([c]) == [c]
  {
    ReplaceOne(c, '&', "&amp;");
    ReplaceOne(c, '<', "&lt;");
    ReplaceOne(c, '>', "&gt;");
    ReplaceOne(c, '"', "&quot;");
    ReplaceOne(c, '\'', "&#39;");
    EscapeSteps(c, [c], [c], [c], [c], [c]);
  }

  lemma EscapeOne(c: char)
    ensures EscapeHtml([c]) == EscapeChar(c)
  {
    if c == '&' {
      EscapeAmp(c);
    } else if c == '<' {
      EscapeLt(c);
    } else if c == '>' {
      EscapeGt(c);
    } else if c == '"' {
      EscapeQuot(c);
    } else if c == '\'' {
      EscapeApos(c);
    } else {
      EscapePlain(c);
    }
  }

  /** Because `&` is replaced first, the entities written by the later passes are not
      escaped again: the five passes escape each character of the input exactly once. */
  lemma {:induction false} EscapeHtmlIsPerChar(s: string)
    ensures EscapeHtml(s) == EscapeEach(s)
  {
    if |s| > 0 {
      assert s == [s[0]] + s[1..];
      EscapeHtmlConcat([s[0]], s[1..]);
      EscapeOne(s[0]);
      EscapeHtmlIsPerChar(s[1..]);
    }
  }

  /** No raw `<`, `>`, `"` or `'` survives. */
  lemma {:induction false} EscapedHasNoSpecials(s: string)
    ensures forall c :: c in EscapeHtml(s) ==> c != '<' && c != '>' && c != '"' && c != '\''
  {
    EscapeHtmlIsPerChar(s);
    EscapeEachNoSpecials(s);
  }

  lemma {:induction false} EscapeEachNoSpecials(s: string)
    ensures forall c :: c in EscapeEach(s) ==> c != '<' && c != '>' && c != '"' && c != '\''
  {
    if |s| > 0 {
      EscapeEachNoSpecials(s[1..]);
    }
  }

  lemma UnescapeAmp(rest: string)
    ensures Unescape("&amp;" + rest) == "&" + Unescape(rest)
  {
    var s := "&amp;" + rest;
    assert s[..5] == "&amp;" && s[5..] == rest;
  }

  /** The two four-character entities, `&lt;` and `&gt;`. */
  lemma UnescapeAngle(c: char, rest: string)
    requires c == '<' || c == '>'
    ensures Unescape(EscapeChar(c) + rest) == [c] + Unescape(rest)
  {
    var s := EscapeChar(c) + rest;
    assert s[1] == (if c == '<' then 'l' else 'g');
    assert s[..4] == EscapeChar(c) && s[4..] == rest;
  }

  lemma UnescapeQuot(rest: string)
    ensures Unescape("&quot;" + rest) == "\"" + Unescape(rest)
  {
    var s := "&quot;" + rest;
    assert s[1] == 'q';
    assert s[..6] == "&quot;" && s[6..] == rest;
  }

  lemma UnescapeApos(rest: string)
    ensures Unescape("&#39;" + rest) == "'" + Unescape(rest)
  {
    var s := "&#39;" + rest;
    assert s[1] == '#';
    assert s[..5] == "&#39;" && s[5..] == rest;
  }

  lemma UnescapePlain(c: char, rest: string)
    requires c != '&'
    ensures Unescape([c] + rest) == [c] + Unescape(rest)
  {
    var s := [c] + rest;
    assert s[0] == c && s[1..] == rest;
  }

  lemma UnescapeStep(c: char, rest: string)
    ensures Unescape(EscapeChar(c) + rest) == [c] + Unescape(rest)
  {
    if c == '&' {
      UnescapeAmp(rest);
    } else if c == '<' || c == '>' {
      UnescapeAngle(c, rest);
    } else if c == '"' {
      UnescapeQuot(rest);
    } else if c == '\'' {
      UnescapeApos(rest);
    } else {
      UnescapePlain(c, rest);
    }
  }

  /** The escaped text reads back as the original. */
  lemma {:induction false} EscapeRoundTrip(s: string)
    ensures Unescape(EscapeHtml(s)) == s
  {
    EscapeHtmlIsPerChar(s);
    EscapeEachRoundTrip(s);
  }

  lemma {:induction false} EscapeEachRoundTrip(s: string)
    ensures Unescape(EscapeEach(s)) == s
  {
    if |s| > 0 {
      UnescapeStep(s[0], EscapeEach(s[1..]));
      EscapeEachRoundTrip(s[1..]);
      assert s == [s[0]] + s[1..];
    }
  }

  // ---------------------------------------------------------------- toJsTree

  datatype Colour = Green | Red

  /** The outline's node: `id`, `text`, `children`, `state.opened`, the colour of the
      label and of the folder icon, and the cells in `data`. */
  datatype JsNode = JsNode(
    id: Option<Uid>,
    text: string,
    children: seq<JsNode>,
    isOpen: bool,
    colour: Colour,
    percent: real,
    status: bool,
    descricao: string,
    url: string)

  /** `toJsTree(node)`. */
  function ToJsTree(t: Task): JsNode
    decreases t, 1
  {
    JsNode(
      t.uid,
      t.name,
      JsKids(t.children),
      !t.collapsed,
      if t.status then Green else Red,
      t.percent,
      t.status,
      t.descricao,
      t.url)
  }

  /** `tasks.map(toJsTree)`: one outline node per task, in order. */
  function JsKids(cs: seq<Task>): (r: seq<JsNode>)
    ensures |r| == |cs|
    ensures forall i :: 0 <= i < |cs| ==> r[i] == ToJsTree(cs[i])
    decreases cs, 0
  {
    seq(|cs|, i requires 0 <= i < |cs| => ToJsTree(cs[i]))
  }

  /** Reading a task back from the outline node. */
  function FromJsNode(j: JsNode): Task
  {
    Task(
      j.text,
      j.status,
      j.percent,
      seq(|j.children|, i requires 0 <= i < |j.children| => FromJsNode(j.children[i])),
      j.descricao,
      j.url,
      !j.isOpen,
      j.id)
  }

  /** The outline mirrors the tree one to one: reading it back gives the tree. */
  lemma {:induction false} OutlineRoundTrip(t: Task)
    ensures FromJsNode(ToJsTree(t)) == t
  {
    var j := ToJsTree(t);
    forall i | 0 <= i < |t.children|
      ensures FromJsNode(j.children[i]) == t.children[i]
    {
      OutlineRoundTrip(t.children[i]);
    }
    assert FromJsNode(j).children == t.children;
  }

  /** The outline's nodes listed parent first, as jsTree walks them. */
  function JsPreOrder(j: JsNode): (s: seq<JsNode>)
    ensures |s| >= 1 && s[0] == j
    decreases j, 1
  {
    [j] + JsPreOrderAll(j.children)
  }

  function JsPreOrderAll(cs: seq<JsNode>): seq<JsNode>
    decreases cs, 0
  {
    if |cs| == 0 then [] else JsPreOrder(cs[0]) + JsPreOrderAll(cs[1..])
  }

  lemma JsKidsConcat(a: seq<Task>, b: seq<Task>)
    ensures JsKids(a + b) == JsKids(a) + JsKids(b)
  {
    assert forall i :: 0 <= i < |a + b| ==> JsKids(a + b)[i] == (JsKids(a) + JsKids(b))[i];
  }

  /** Listed parent first, the outline built from a tree is that tree's own listing,
      node for task. */
  lemma {:induction false} OutlineListing(t: Task)
    ensures JsPreOrder(ToJsTree(t)) == JsKids(PreOrder(t))
    decreases t, 1
  {
    OutlineListingAll(t.children);
    JsKidsConcat([t], PreOrderAll(t.children));
    assert JsKids([t]) == [ToJsTree(t)];
  }

  lemma {:induction false} OutlineListingAll(cs: seq<Task>)
    ensures JsPreOrderAll(JsKids(cs)) == JsKids(PreOrderAll(cs))
    decreases cs, 0
  {
    if |cs| == 0 {
      assert JsKids(cs) == [];
    } else {
      assert JsKids(cs)[1..] == JsKids(cs[1..]);
      OutlineListing(cs[0]);
      OutlineListingAll(cs[1..]);
      JsKidsConcat(PreOrder(cs[0]), PreOrderAll(cs[1..]));
    }
  }

  /** Every outline node shows its task: the outline has one node per task, in the same
      parent-first order, and node i carries the uid, name, cells and child count of
      task i, is open exactly when that task is not collapsed and is green exactly
      when it is done. */
  lemma OutlineShows(t: Task)
    ensures |JsPreOrder(ToJsTree(t))| == |PreOrder(t)|
    ensures forall i :: 0 <= i < |PreOrder(t)| ==>
      var j, n := JsPreOrder(ToJsTree(t))[i], PreOrder(t)[i];
      && j.id == n.uid && j.text == n.name
      && (j.isOpen <==> !n.collapsed) && (j.colour == Green <==> n.status)
      && j.percent == n.percent && j.status == n.status
      && j.descricao == n.descricao && j.url == n.url
      && |j.children| == |n.children|
  {
    OutlineListing(t);
  }

  /** The ids `tree.get_node` finds a node for. */
  function OutlineIds(j: JsNode): set<Uid>
  {
    var l := JsPreOrder(j);
    set k | 0 <= k < |l| && l[k].id.Some? :: l[k].id.value
  }

  /** An outline built from the tree has a node for exactly the uids in the tree. */
  lemma OutlineIdsOfTree(t: Task)
    ensures forall u :: u in OutlineIds(ToJsTree(t)) <==> u in UidBag(t)
  {
    OutlineListing(t);
    var l := JsPreOrder(ToJsTree(t));
    var p := PreOrder(t);
    forall u: Uid
      ensures u in OutlineIds(ToJsTree(t)) <==> u in UidBag(t)
    {
      if u in UidBag(t) {
        FindByUidFound(t, u);
        var k :| 0 <= k < |p| && p[k] == FindByUid(t, u).value;
        assert l[k].id == Some(u);
      }
      if u in OutlineIds(ToJsTree(t)) {
        var k :| 0 <= k < |l| && l[k].id == Some(u);
        NodeBag(t, p[k]);
        assert p[k].uid == Some(u);
      }
    }
  }

  // ---------------------------------------------------------------- percent column

  /** The value in a completion cell: `undefined`/`null`, `NaN`, or a number. */
  datatype Cell = Missing | NotANumber | Number(x: real)

  /** `Math.round`: the nearest integer, halves rounded up. */
  function Round(x: real): int
  {
    (x + 0.5).Floor
  }

  /** The integer the completion column prints: missing and NaN count as 0, then the
      value is clamped to 0..100 and rounded. */
  function FormatPercent(v: Cell): int
  {
    match v
    case Missing => 0
    case NotANumber => 0
    case Number(x) =>
      var c := if x < 0.0 then 0.0 else if x > 100.0 then 100.0 else x;
      Round(c)
  }

  /** The label is an integer percentage, the nearest one to the clamped value. */
  lemma FormatPercentBounds(v: Cell)
    ensures 0 <= FormatPercent(v) <= 100
    ensures v.Number? && 0.0 <= v.x <= 100.0 ==>
      v.x - 0.5 < FormatPercent(v) as real <= v.x + 0.5
    ensures v.Number? && v.x <= 0.0 ==> FormatPercent(v) == 0
    ensures v.Number? && v.x >= 100.0 ==> FormatPercent(v) == 100
    ensures !v.Number? ==> FormatPercent(v) == 0
  {
  }

  /** A stored percent that is already a whole number in range prints as itself; the
      50 of a half-done node prints as 50. */
  lemma FormatWholePercent(n: int)
    requires 0 <= n <= 100
    ensures FormatPercent(Number(n as real)) == n
  {
  }

  /** A larger value never prints a smaller label. */
  lemma FormatPercentMonotone(x: real, y: real)
    requires x <= y
    ensures FormatPercent(Number(x)) <= FormatPercent(Number(y))
  {
  }

  // ---------------------------------------------------------------- notifyTreeChange

  /** What a change notification does to the outline. */
  datatype Sync =
    | BranchRedrawn(uid: Uid)  // the branch sync succeeded and redrew the node and its ancestors
    | ReportedOnly(uid: Uid)   // the branch sync reported success but found no outline node to redraw
    | FullRefresh              // the outline was rebuilt from the data
    | Idle                     // the outline is not up: the sync fails and the refresh returns early

  /** `syncBranchFromData(uid)` reports success when the outline is up and the uid is
      in the data; it does not ask whether the outline has a node with that id. */
  function SyncBranch(t: Task, u: Uid, outlineReady: bool): bool
  {
    outlineReady && FindByUid(t, u).Some?
  }

  /** `rebuildTreeFromData` rebuilds the outline exactly when it is up: it returns early
      on the same guards as `syncBranchFromData`. */
  function RefreshOutline(outlineReady: bool): bool
  {
    outlineReady
  }

  /** The uid a notification is about: the given one, else the selected node's. */
  function Chosen(given: Option<Uid>, selected: Option<Uid>): Option<Uid>
  {
    if given.Some? then given else selected
  }

  /** `notifyTreeChange(options)` while the outline has nodes for the ids `shown`: the
      chosen uid is synced as a branch, and only when that sync reports failure (or
      there is no uid) is the whole outline refreshed, which does nothing while the
      outline is not up. */
  function NotifyTreeChange(t: Task, shown: set<Uid>, given: Option<Uid>, selected: Option<Uid>,
                            outlineReady: bool): Sync
  {
    var u := Chosen(given, selected);
    if u.Some? && SyncBranch(t, u.value, outlineReady) then
      (if u.value in shown then BranchRedrawn(u.value) else ReportedOnly(u.value))
    else if RefreshOutline(outlineReady) then
      FullRefresh
    else
      Idle
  }

  /** The four outcomes: nothing happens exactly when the outline is not up; while it is
      up, the outline is rebuilt exactly when no uid is chosen or the uid is not in the
      tree; otherwise the branch is redrawn when the outline has a node for the uid, and
      nothing at all is redrawn when it has not. */
  lemma NotifyOutcomes(t: Task, shown: set<Uid>, given: Option<Uid>, selected: Option<Uid>,
                       outlineReady: bool)
    ensures var s := NotifyTreeChange(t, shown, given, selected, outlineReady);
      var u := Chosen(given, selected);
      && (s == Idle <==> !outlineReady)
      && (s == FullRefresh <==> outlineReady && (u.None? || u.value !in UidBag(t)))
      && (s.BranchRedrawn? <==> u.Some? && outlineReady && u.value in UidBag(t) && u.value in shown)
      && (s.ReportedOnly? <==> u.Some? && outlineReady && u.value in UidBag(t) && u.value !in shown)
      && (s.BranchRedrawn? || s.ReportedOnly? ==> s.uid == u.value)
  {
    var u := Chosen(given, selected);
    if u.Some? {
      FindByUidFound(t, u.value);
    }
  }

  /** While the outline is up and mirrors the current tree a notification is never lost:
      it redraws the chosen branch or rebuilds the whole outline. A report that redraws
      nothing cannot happen even when the outline is not up. */
  lemma NotifyCurrentOutline(t: Task, given: Option<Uid>, selected: Option<Uid>, outlineReady: bool)
    ensures var s := NotifyTreeChange(t, OutlineIds(ToJsTree(t)), given, selected, outlineReady);
      && !s.ReportedOnly?
      && (outlineReady ==> s.BranchRedrawn? || s == FullRefresh)
  {
    OutlineIdsOfTree(t);
    NotifyOutcomes(t, OutlineIds(ToJsTree(t)), given, selected, outlineReady);
  }

  /** An outline drawn before a child was added: a notification about the new child
      reports success and redraws nothing. */
  lemma NotifyStaleOutline()
    ensures var t0 := Task("R", false, 0.0, [], "", "", false, Some(1));
      var t1 := t0.(children := [Task("A", false, 0.0, [], "", "", false, Some(2))]);
      NotifyTreeChange(t1, OutlineIds(ToJsTree(t0)), Some(2), None, true) == ReportedOnly(2)
  {
    var t0 := Task("R", false, 0.0, [], "", "", false, Some(1));
    var t1 := t0.(children := [Task("A", false, 0.0, [], "", "", false, Some(2))]);
    OutlineIdsOfTree(t0);
    assert UidBag(t0) == multiset{1};
    FindByUidFound(t1, 2);
    assert 2 in UidBag(t1);
  }
}
