/** Adding children one at a time at a path of joined compounds, as the lines `a.b.c value` do. */
module Graft {
  import opened Numbers
  import opened Tree
  import opened Printer

  function AddAt(base: seq<Node>, path: seq<string>, k: Node): seq<Node>
    decreases |path|
  {
    if path == [] then base + [k]
    else
      match Find(base, path[0])
      case Some(i) =>
        if base[i].value.Compound? then
          base[i := Node(path[0], Compound(AddAt(base[i].value.kids, path[1..], k), true))]
        else base
      case None =>
        base + [Node(path[0], Compound(AddAt([], path[1..], k), true))]
  }

  /** The place for a child with this id is free. */
  predicate CanAdd(base: seq<Node>, path: seq<string>, id: string)
    decreases |path|
  {
    match Find(base, if path == [] then id else path[0])
    case None => true
    case Some(i) => path != [] && base[i].value.Compound? && CanAdd(base[i].value.kids, path[1..], id)
  }

  function AddAllAt(base: seq<Node>, path: seq<string>, kids: seq<Node>): seq<Node>
    decreases |kids|
  {
    if kids == [] then base else AddAllAt(AddAt(base, path, kids[0]), path, kids[1..])
  }

  lemma {:induction false} FindAppended(base: seq<Node>, k: Node, id: string)
    ensures Find(base, id).Some? ==> Find(base + [k], id) == Find(base, id)
    ensures Find(base, id).None? && k.id == id ==> Find(base + [k], id) == Some(|base|)
    ensures Find(base, id).None? && k.id != id ==> Find(base + [k], id) == None
  {
    if base != [] {
      assert (base + [k])[1..] == base[1..] + [k];
      FindAppended(base[1..], k, id);
    }
  }

  lemma {:induction false} FindReplaced(base: seq<Node>, i: nat, v: Value, id: string)
    requires i < |base|
    ensures Find(base[i := Node(base[i].id, v)], id) == Find(base, id)
  {
    if i > 0 {
      var b := base[i := Node(base[i].id, v)];
      assert b[1..] == base[1..][i - 1 := Node(base[i].id, v)];
      FindReplaced(base[1..], i - 1, v, id);
    }
  }

  /** After adding one child there is still room for another. */
  lemma {:induction false} CanAddAfter(base: seq<Node>, path: seq<string>, k: Node, id: string)
    requires CanAdd(base, path, k.id) && CanAdd(base, path, id) && id != k.id
    ensures CanAdd(AddAt(base, path, k), path, id)
    decreases |path|
  {
    if path == [] {
      FindAppended(base, k, id);
    } else {
      match Find(base, path[0])
      case Some(i) =>
        CanAddAfter(base[i].value.kids, path[1..], k, id);
        FindReplaced(base, i, Compound(AddAt(base[i].value.kids, path[1..], k), true), path[0]);
      case None =>
        CanAddAfter([], path[1..], k, id);
        FindAppended(base, Node(path[0], Compound(AddAt([], path[1..], k), true)), path[0]);
    }
  }

  /** Adding to a joined child that was itself just added. */
  lemma {:induction false} AddAtNested(base: seq<Node>, path: seq<string>, id: string, kids: seq<Node>, k: Node)
    requires CanAdd(base, path, id) && Find(kids, k.id).None?
    ensures var b := AddAt(base, path, Node(id, Compound(kids, true)));
            && CanAdd(b, path + [id], k.id)
            && AddAt(b, path + [id], k) == AddAt(base, path, Node(id, Compound(kids + [k], true)))
    decreases |path|
  {
    var n := Node(id, Compound(kids, true));
    if path == [] {
      assert (path + [id])[1..] == [];
      FindAppended(base, n, id);
    } else {
      assert (path + [id])[1..] == path[1..] + [id];
      match Find(base, path[0])
      case Some(i) =>
        AddAtNested(base[i].value.kids, path[1..], id, kids, k);
        FindReplaced(base, i, Compound(AddAt(base[i].value.kids, path[1..], n), true), path[0]);
      case None =>
        AddAtNested([], path[1..], id, kids, k);
        FindAppended(base, Node(path[0], Compound(AddAt([], path[1..], n), true)), path[0]);
    }
  }

  /** Nothing is there yet, so the first child also makes its joined parent. */
  lemma {:induction false} AddAtFirst(base: seq<Node>, path: seq<string>, id: string, k: Node)
    requires CanAdd(base, path, id)
    ensures CanAdd(base, path + [id], k.id)
    ensures AddAt(base, path + [id], k) == AddAt(base, path, Node(id, Compound([k], true)))
    decreases |path|
  {
    if path == [] {
      assert (path + [id])[1..] == [];
      assert [] + [k] == [k];
    } else {
      assert (path + [id])[1..] == path[1..] + [id];
      match Find(base, path[0])
      case Some(i) => AddAtFirst(base[i].value.kids, path[1..], id, k);
      case None => AddAtFirst([], path[1..], id, k);
    }
  }

  /** Adding the children of a joined compound one by one adds the compound. */
  lemma {:induction false} AddAllNested(base: seq<Node>, path: seq<string>, id: string, done: seq<Node>,
                                        kids: seq<Node>)
    requires CanAdd(base, path, id) && DistinctIds(done + kids)
    ensures AddAllAt(AddAt(base, path, Node(id, Compound(done, true))), path + [id], kids)
         == AddAt(base, path, Node(id, Compound(done + kids, true)))
    decreases |kids|
  {
    if kids == [] {
      assert done + kids == done;
    } else {
      assert (done + kids)[|done|] == kids[0];
      assert forall j :: 0 <= j < |done| ==> (done + kids)[j] == done[j];
      AddAtNested(base, path, id, done, kids[0]);
      assert (done + [kids[0]]) + kids[1..] == done + kids;
      AddAllNested(base, path, id, done + [kids[0]], kids[1..]);
    }
  }

  lemma AddAllJoined(base: seq<Node>, path: seq<string>, k: Node)
    requires CanAdd(base, path, k.id) && Joined(k.value) && k.value.kids != [] && DistinctIds(k.value.kids)
    ensures AddAllAt(base, path + [k.id], k.value.kids) == AddAt(base, path, k)
  {
    var kids := k.value.kids;
    AddAtFirst(base, path, k.id, kids[0]);
    assert [kids[0]] + kids[1..] == kids;
    AddAllNested(base, path, k.id, [kids[0]], kids[1..]);
  }

  /** At the top, adding all children appends them. */
  lemma {:induction false} AddAllTop(base: seq<Node>, kids: seq<Node>)
    ensures AddAllAt(base, [], kids) == base + kids
    decreases |kids|
  {
    if kids == [] {
      assert base + kids == base;
    } else {
      AddAllTop(base + [kids[0]], kids[1..]);
      assert base + [kids[0]] + kids[1..] == base + kids;
    }
  }

  lemma {:induction false} AddAllConcat(base: seq<Node>, path: seq<string>, a: seq<Node>, b: seq<Node>)
    ensures AddAllAt(base, path, a + b) == AddAllAt(AddAllAt(base, path, a), path, b)
    decreases |a|
  {
    if a == [] {
      assert a + b == b;
    } else {
      assert (a + b)[1..] == a[1..] + b;
      AddAllConcat(AddAt(base, path, a[0]), path, a[1..], b);
    }
  }
}
