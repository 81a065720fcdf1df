/** Conversion between parsed JSON and Task trees: `plainObjectToTask`
    (assets/js/task-model.js) and the JSON snapshot that the export writes. */
module PlainObject {
  import opened Basics
  import opened TaskModel
  import opened Identity

  /** A value produced by `JSON.parse`, plus `undefined` for a property that is absent. */
  datatype Json =
    | Undefined
    | Null
    | Bool(b: bool)
    | Num(n: real)
    | Str(s: string)
    | Arr(items: seq<Json>)
    | Obj(props: map<string, Json>)

  /** JavaScript truthiness of a JSON value. */
  predicate Truthy(v: Json)
  {
    match v
    case Undefined => false
    case Null => false
    case Bool(b) => b
    case Num(n) => n != 0.0
    case Str(s) => s != ""
    case Arr(_) => true
    case Obj(_) => true
  }

  /** `v[key]` on a value that is not null or undefined. */
  function Prop(v: Json, key: string): Json
  {
    if v.Obj? && key in v.props then v.props[key] else Undefined
  }

  /** `v || ""` for a text field. */
  function TextOr(v: Json): string
  {
    if v.Str? then v.s else ""
  }

  /** `typeof v === "number" ? v : 0`. */
  function NumberOr(v: Json): real
  {
    if v.Num? then v.n else 0.0
  }

  /** The seven properties that `plainObjectToTask` reads. */
  predicate IsTaskKey(k: string)
  {
    k in {"name", "status", "percent", "children", "descricao", "url", "collapsed"}
  }

  /** `plainObjectToTask(obj)`. None where the source throws a TypeError: reading a
      property of null or undefined, or calling `map` on a truthy `children` that is
      not an array. Any failure inside the children fails the whole conversion. */
  function FromPlain(v: Json): Option<Task>
    decreases v, 1
  {
    if v.Null? || v.Undefined? then None
    else
      var kids :=
        if !Truthy(Prop(v, "children")) then Some([])
        else if v.Obj? && "children" in v.props && v.props["children"].Arr?
        then FromPlainAll(v.props["children"].items)
        else None;
      match kids
      case None => None
      case Some(cs) =>
        Some(Task(
          TextOr(Prop(v, "name")),
          Truthy(Prop(v, "status")),
          NumberOr(Prop(v, "percent")),
          cs,
          TextOr(Prop(v, "descricao")),
          TextOr(Prop(v, "url")),
          Truthy(Prop(v, "collapsed")),
          None))
  }

  /** `items.map(plainObjectToTask)`. */
  function FromPlainAll(items: seq<Json>): Option<seq<Task>>
    decreases items, 0
  {
    if |items| == 0 then Some([])
    else
      match FromPlain(items[0])
      case None => None
      case Some(t) =>
        match FromPlainAll(items[1..])
        case None => None
        case Some(ts) => Some([t] + ts)
  }

  /** Decimal digits of a counter value. */
  function NatToString(n: nat): string
    decreases n
  {
    var d := "0123456789"[n % 10];
    if n < 10 then [d] else NatToString(n / 10) + [d]
  }

  /** The JSON snapshot of a tree (what `JSON.stringify` writes for it): the seven
      fields, recursively, and `_uid` where one has been stamped. */
  function ToPlain(t: Task): Json
  {
    var fields := map[
      "name" := Str(t.name),
      "status" := Bool(t.status),
      "percent" := Num(t.percent),
      "children" := Arr(seq(|t.children|, i requires 0 <= i < |t.children| => ToPlain(t.children[i]))),
      "descricao" := Str(t.descricao),
      "url" := Str(t.url),
      "collapsed" := Bool(t.collapsed)];
    match t.uid
    case None => Obj(fields)
    case Some(u) => Obj(fields["_uid" := Str("uid_" + NatToString(u))])
  }

  lemma {:induction false} FromPlainAllLength(items: seq<Json>)
    requires FromPlainAll(items).Some?
    ensures |FromPlainAll(items).value| == |items|
    ensures forall i :: 0 <= i < |items| ==> FromPlain(items[i]) == Some(FromPlainAll(items).value[i])
  {
    if |items| > 0 {
      FromPlainAllLength(items[1..]);
    }
  }

  lemma {:induction false} FromPlainAllSucceeds(items: seq<Json>, ts: seq<Task>)
    requires |ts| == |items|
    requires forall i :: 0 <= i < |items| ==> FromPlain(items[i]) == Some(ts[i])
    ensures FromPlainAll(items) == Some(ts)
  {
    if |items| > 0 {
      FromPlainAllSucceeds(items[1..], ts[1..]);
      assert ts == [ts[0]] + ts[1..];
    }
  }

  lemma {:induction false} FromPlainAllFails(items: seq<Json>, k: nat)
    requires k < |items| && FromPlain(items[k]).None?
    ensures FromPlainAll(items).None?
  {
    if FromPlain(items[0]).Some? {
      FromPlainAllFails(items[1..], k - 1);
    }
  }

  /** A converted tree carries no `_uid`: the import's nodes are stamped afresh. */
  lemma {:induction false} FromPlainNoUids(v: Json)
    requires FromPlain(v).Some?
    ensures UidBag(FromPlain(v).value) == multiset{}
    decreases v, 1
  {
    var t := FromPlain(v).value;
    if Truthy(Prop(v, "children")) {
      var items := v.props["children"].items;
      FromPlainAllNoUids(items);
    }
  }

  lemma {:induction false} FromPlainAllNoUids(items: seq<Json>)
    requires FromPlainAll(items).Some?
    ensures UidBagAll(FromPlainAll(items).value) == multiset{}
    decreases items, 0
  {
    if |items| > 0 {
      FromPlainNoUids(items[0]);
      FromPlainAllNoUids(items[1..]);
      var ts := FromPlainAll(items).value;
      assert ts[1..] == FromPlainAll(items[1..]).value;
    }
  }

  /** Field by field defaults: a falsy name, descricao or url becomes "", status and
      collapsed are coerced to booleans, a non-number percent becomes 0, no `_uid` is
      carried over, and the children keep their count and order. */
  lemma FromPlainFields(v: Json)
    requires FromPlain(v).Some?
    ensures var t := FromPlain(v).value;
      && (!Truthy(Prop(v, "name")) ==> t.name == "")
      && (Prop(v, "name").Str? ==> t.name == Prop(v, "name").s)
      && (!Truthy(Prop(v, "descricao")) ==> t.descricao == "")
      && (Prop(v, "descricao").Str? ==> t.descricao == Prop(v, "descricao").s)
      && (!Truthy(Prop(v, "url")) ==> t.url == "")
      && (Prop(v, "url").Str? ==> t.url == Prop(v, "url").s)
      && t.status == Truthy(Prop(v, "status"))
      && t.collapsed == Truthy(Prop(v, "collapsed"))
      && (Prop(v, "percent").Num? ==> t.percent == Prop(v, "percent").n)
      && (!Prop(v, "percent").Num? ==> t.percent == 0.0)
      && t.uid == None
      && (!Truthy(Prop(v, "children")) ==> t.children == [])
      && (Prop(v, "children").Arr? ==>
            && |t.children| == |Prop(v, "children").items|
            && forall i :: 0 <= i < |t.children| ==> FromPlain(Prop(v, "children").items[i]) == Some(t.children[i]))
  {
    if Prop(v, "children").Arr? && Truthy(Prop(v, "children")) {
      FromPlainAllLength(Prop(v, "children").items);
    }
  }

  /** The import is all or nothing: null, or a truthy non-array `children`, or one
      child anywhere that cannot be converted makes the whole conversion fail. */
  lemma FromPlainFailures(v: Json, k: nat)
    ensures FromPlain(Null).None?
    ensures v.Obj? && Truthy(Prop(v, "children")) && !Prop(v, "children").Arr? ==> FromPlain(v).None?
    ensures (v.Obj? && Prop(v, "children").Arr? && k < |Prop(v, "children").items|
             && FromPlain(Prop(v, "children").items[k]).None?) ==> FromPlain(v).None?
  {
    if v.Obj? && Prop(v, "children").Arr? && k < |Prop(v, "children").items|
       && FromPlain(Prop(v, "children").items[k]).None? {
      FromPlainAllFails(Prop(v, "children").items, k);
    }
  }

  /** Properties other than the seven task fields, `_uid` among them, are ignored. */
  lemma ExtraPropertyIgnored(m: map<string, Json>, k: string, x: Json)
    requires !IsTaskKey(k)
    ensures FromPlain(Obj(m[k := x])) == FromPlain(Obj(m))
  {
    var v, w := Obj(m[k := x]), Obj(m);
    assert forall key :: IsTaskKey(key) ==> Prop(v, key) == Prop(w, key);
  }

  /** The snapshot's children, in order. */
  function PlainChildren(t: Task): seq<Json>
  {
    seq(|t.children|, i requires 0 <= i < |t.children| => ToPlain(t.children[i]))
  }

  lemma SnapshotProps(t: Task)
    ensures var v := ToPlain(t);
      && v.Obj?
      && Prop(v, "name") == Str(t.name) && Prop(v, "status") == Bool(t.status)
      && Prop(v, "percent") == Num(t.percent) && Prop(v, "children") == Arr(PlainChildren(t))
      && Prop(v, "descricao") == Str(t.descricao) && Prop(v, "url") == Str(t.url)
      && Prop(v, "collapsed") == Bool(t.collapsed)
  {
  }

  /** Importing an exported snapshot gives back the same tree, minus the `_uid` stamps. */
  lemma {:induction false} SnapshotRoundTrip(t: Task)
    ensures FromPlain(ToPlain(t)) == Some(Unstamped(t))
  {
    var v := ToPlain(t);
    var items := PlainChildren(t);
    SnapshotProps(t);
    var u := Unstamped(t);
    forall i | 0 <= i < |items|
      ensures FromPlain(items[i]) == Some(u.children[i])
    {
      SnapshotRoundTrip(t.children[i]);
    }
    FromPlainAllSucceeds(items, u.children);
    assert FromPlain(v) == Some(Task(t.name, t.status, t.percent, u.children, t.descricao, t.url, t.collapsed, None));
  }

  /** Importing `{name:"R", children:[{name:"C", status:true}]}` and recomputing gives
      R 100% and done, and C 100%. */
  lemma ImportExample()
    ensures
      var c := Obj(map["name" := Str("C"), "status" := Bool(true)]);
      var r := Obj(map["name" := Str("R"), "children" := Arr([c])]);
      && FromPlain(r).Some?
      && var t := Recomputed(FromPlain(r).value);
         t.percent == 100.0 && t.status && t.children[0].percent == 100.0
  {
    var c := Obj(map["name" := Str("C"), "status" := Bool(true)]);
    var r := Obj(map["name" := Str("R"), "children" := Arr([c])]);
    var tc := Task("C", true, 0.0, [], "", "", false, None);
    assert FromPlain(c) == Some(tc);
    FromPlainAllSucceeds([c], [tc]);
    var tr := Task("R", false, 0.0, [tc], "", "", false, None);
    assert FromPlain(r) == Some(tr);
    var t := Recomputed(tr);
    assert t.children == [Recomputed(tc)];
    assert Percents(t.children) == [100.0];
    assert Sum([100.0]) == 100.0 by {
      assert [100.0][..0] == [];
    }
  }
}
