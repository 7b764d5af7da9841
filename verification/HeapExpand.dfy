/**
 The walk of snd_config_expand over nodes in memory (conf.c:4897-4938, 5029-5124): a new tree that stands for the
 expansion.
 */
module HeapExpanding {
  import opened Numbers
  import T = Tree
  import A = Arithmetic
  import opened Evaluator
  import X = Expansion
  import opened Ring
  import opened Forest
  import opened ConfigHeap
  import opened HeapTree
  import opened HeapMerging
  import opened HeapCopying

  /** What the variable function returns is a tree. */
  ghost predicate TreesOnly(vars: Vars) {
    forall name | vars(name).Found? :: T.WellFormed(vars(name).value)
  }

  // ----- a new tree for a value

  lemma MadeNew(a: State, b: State, n: Ptr, id: Option<string>, v: T.Value)
    requires Good(a) && Good(b) && n !in a.cells
    requires var data := if v.Compound? then Members(v.join) else Scalar(v);
             && b.cells == a.cells[n := Cell(id, data, 0, None)]
             && b.kids == if v.Compound? then a.kids[n := []] else a.kids
    ensures Copied(a, b, n, if v.Compound? then T.Compound([], v.join) else v)
  {
    assert n !in a.kids;
    assert Under(b.cells, b.rank, n, n);
  }

  /** The tree that the variable function, or the evaluator, hands over. */
  method Build(h: Heap, id: Option<string>, v: T.Value) returns (n: Ptr)
    requires h.Valid() && T.WellFormed(v)
    modifies h, h.mem
    ensures h.Valid() && Copied(old(Now(h)), Now(h), n, v) && h.cells[n].id == id
    decreases v, 1
  {
    ghost var a := Now(h);
    n := h.Make(id, if v.Compound? then Members(v.join) else Scalar(v));
    MadeNew(a, Now(h), n, id, v);
    if v.Compound? {
      BuildMembers(h, n, v, a);
    }
  }

  method BuildMembers(h: Heap, n: Ptr, v: T.Value, ghost a: State)
    requires h.Valid() && Good(a) && v.Compound? && T.WellFormed(v) && Copied(a, Now(h), n, T.Compound([], v.join))
    modifies h, h.mem
    ensures h.Valid() && Copied(a, Now(h), n, v) && n in old(h.cells) && n in h.cells
    ensures h.cells[n].id == old(h.cells[n].id)
    decreases v, 0
  {
    hide Copied, T.WellFormed, IsForest;
    var i := 0;
    assert v.kids[..0] == [];
    CopyRoot(a, Now(h), n, T.Compound([], v.join));
    while i < |v.kids|
      invariant i <= |v.kids| && h.Valid() && Copied(a, Now(h), n, T.Compound(v.kids[..i], v.join))
      invariant n in h.cells && h.cells[n].id == old(h.cells[n].id)
    {
      var k := v.kids[i];
      ghost var b := Now(h);
      KidWellFormed(v, i);
      CopyRoot(a, b, n, T.Compound(v.kids[..i], v.join));
      var d := Build(h, Some(k.id), k.value);
      AddNew(h, n, d, a, b, T.Compound(v.kids[..i], v.join), k);
      assert v.kids[..i] + [k] == v.kids[..i + 1];
      i := i + 1;
    }
    assert v.kids[..i] == v.kids;
  }

  lemma KidWellFormed(v: T.Value, i: nat)
    requires T.WellFormed(v) && v.Compound? && i < |v.kids|
    ensures T.WellFormed(v.kids[i].value) && T.Find(v.kids[..i], v.kids[i].id).None?
  {
    assert v.kids[i] in v.kids;
  }

  // ----- the expansion of a list, child by child

  lemma {:induction false} ExpandMore(vars: Vars, ks: seq<T.Node>, k: T.Node)
    requires X.ExpandKids(vars, ks).Computed?
    ensures X.ExpandKids(vars, ks + [k]) ==
            match X.Expand(vars, k)
            case Failed => A.Failed
            case Undefined => A.Undefined
            case Computed(o) => A.Computed(X.ExpandKids(vars, ks).v + X.ToSeq(o))
  {
    if ks == [] {
      assert ks + [k] == [k] && [k][1..] == [] && X.ExpandKids(vars, []) == A.Computed([]);
      assert forall o :: X.ToSeq(o) + [] == [] + X.ToSeq(o);
    } else {
      assert (ks + [k])[1..] == ks[1..] + [k];
      ExpandMore(vars, ks[1..], k);
      var e := X.Expand(vars, k);
      if e.Computed? {
        var h, t := X.ToSeq(X.Expand(vars, ks[0]).v), X.ExpandKids(vars, ks[1..]).v;
        assert h + (t + X.ToSeq(e.v)) == h + t + X.ToSeq(e.v);
      }
    }
  }

  lemma {:induction false} ExpandStops(vars: Vars, ks: seq<T.Node>, more: seq<T.Node>)
    requires !X.ExpandKids(vars, ks).Computed?
    ensures X.ExpandKids(vars, ks + more) == X.ExpandKids(vars, ks)
  {
    assert (ks + more)[1..] == ks[1..] + more;
    if X.Expand(vars, ks[0]).Computed? {
      ExpandStops(vars, ks[1..], more);
    }
  }

  lemma NewId(vars: Vars, ks: seq<T.Node>, id: string)
    requires X.ExpandKids(vars, ks).Computed? && T.Find(ks, id).None?
    ensures T.Find(X.ExpandKids(vars, ks).v, id).None?
  {
    var r := X.ExpandKids(vars, ks).v;
    forall i | 0 <= i < |r|
      ensures r[i].id != id
    {
      X.ExpandedIds(vars, ks, r[i]);
      var k :| k in ks && k.id == r[i].id;
      var j :| 0 <= j < |ks| && ks[j] == k;
    }
  }

  // ----- the walk

  /** Nothing is left of what a failed walk has made. */
  ghost predicate Restored(a: State, b: State) {
    Untouched(a, b) && b.cells.Keys == a.cells.Keys
  }

  /** What the walk owes: the expansion, nothing, or an error. */
  ghost predicate Expanded(a: State, b: State, id: Option<string>, want: A.Outcome<Option<T.Node>>,
                           r: A.Outcome<Option<Ptr>>) {
    match want
    case Failed => r == A.Failed && Restored(a, b)
    case Undefined => r == A.Undefined && Restored(a, b)
    case Computed(None) => r == A.Computed(None) && Restored(a, b)
    case Computed(Some(m)) =>
      r.Computed? && r.v.Some? && Copied(a, b, r.v.value, m.value) && b.cells[r.v.value].id == id
  }

  /** The id of a node, with the empty one for a node that has none. */
  function IdOf(id: Option<string>): string {
    if id.Some? then id.value else []
  }

  lemma SameRestored(a: State)
    ensures Restored(a, a)
  {
  }

  /** Deleting a new tree brings back what was there. */
  method Discard(h: Heap, n: Ptr, ghost a: State, ghost v: T.Value)
    requires h.Valid() && Good(a) && Copied(a, Now(h), n, v)
    modifies h, h.mem
    ensures h.Valid() && Restored(a, Now(h))
  {
    ghost var b := Now(h);
    CopyDisjoint(a, b, n, v);
    CopyRoot(a, b, n, v);
    NewUnheld(a, b, n, v);
    KidsOnly(a, b, n);
    hide Copied, Under, Below, Compounds, Rings, Allocated, Up, Down, AllSiblingIds, Shows, Untouched, Restored;
    h.Delete(n, 0);
    GoneRestores(a, b, Now(h), Below(b.cells, b.rank, n));
  }

  lemma GoneRestores(a: State, b: State, t: State, gone: set<Ptr>)
    requires Untouched(a, b) && gone == b.cells.Keys - a.cells.Keys && (forall m | m in a.cells :: m !in gone)
    requires t.cells == b.cells - gone && t.kids == b.kids - gone
    ensures Restored(a, t)
  {
    forall m | m in a.cells
      ensures m in t.cells && t.cells[m] == a.cells[m]
    {
      assert m in b.cells;
    }
  }

  lemma NewUnheld(a: State, b: State, n: Ptr, v: T.Value)
    requires Good(a) && Good(b) && Copied(a, b, n, v) && Below(b.cells, b.rank, n) == b.cells.Keys - a.cells.Keys
    ensures forall m | m in Below(b.cells, b.rank, n) :: b.cells[m].refcount == 0
  {
  }

  lemma KidsOnly(a: State, b: State, n: Ptr)
    requires Good(a) && Good(b) && Untouched(a, b) && Below(b.cells, b.rank, n) == b.cells.Keys - a.cells.Keys
    ensures forall m | m in a.cells :: m !in Below(b.cells, b.rank, n)
  {
  }

  /** A leaf: replaced by what its variable or expression gives, dropped when that is nothing, or copied. */
  method ExpandLeaf(h: Heap, src: Ptr, vars: Vars, ghost v: T.Value) returns (r: A.Outcome<Option<Ptr>>)
    requires h.Valid() && Shows(h.cells, h.kids, src, v) && !v.Compound? && TreesOnly(vars)
    modifies h, h.mem
    ensures h.Valid()
    ensures Expanded(old(Now(h)), Now(h), old(h.cells[src].id), X.Expand(vars, T.Node(IdOf(old(h.cells[src].id)), v)),
                     r)
  {
    hide Copied, IsForest, EvaluateString;
    ghost var a := Now(h);
    SameRestored(a);
    var id, value := h.cells[src].id, h.cells[src].data.value;
    if X.IsVariable(value) {
      match EvaluateString(vars, value.s) {
        case Failed => return A.Failed;
        case Undefined => return A.Undefined;
        case Computed(None) => return A.Computed(None);
        case Computed(Some(w)) =>
          EvaluatedTree(vars, value.s);
          var n := Build(h, id, w);
          return A.Computed(Some(n));
      }
    }
    assert value == v && T.WellFormed(v);
    var n := Build(h, id, value);
    return A.Computed(Some(n));
  }

  lemma EvaluatedTree(vars: Vars, s: string)
    requires TreesOnly(vars)
    ensures var r := EvaluateString(vars, s); r.Computed? && r.v.Some? ==> T.WellFormed(r.v.value)
  {
    hide Steps;
    if |s| > 1 && s[0] == '$' && s[1] == '[' {
      var r := Eval(vars, s);
      assert r.Computed? ==> !r.v.Compound?;
    }
  }

  /** snd_config_walk with the callback of expand. */
  method ExpandNode(h: Heap, src: Ptr, vars: Vars, ghost v: T.Value) returns (r: A.Outcome<Option<Ptr>>)
    requires h.Valid() && Shows(h.cells, h.kids, src, v) && TreesOnly(vars)
    modifies h, h.mem
    ensures h.Valid()
    ensures Expanded(old(Now(h)), Now(h), old(h.cells[src].id), X.Expand(vars, T.Node(IdOf(old(h.cells[src].id)), v)),
                     r)
    decreases v, 1
  {
    ghost var a := Now(h);
    ShowsKind(a, src, v);
    if h.cells[src].data.Scalar? {
      r := ExpandLeaf(h, src, vars, v);
      return;
    }
    if h.cells[src].id == Some(X.ARGS) {
      SameRestored(a);
      return A.Computed(None);
    }
    var id := h.cells[src].id;
    ShowsJoin(a, src, v);
    var n := h.Make(id, h.cells[src].data);
    MadeNew(a, Now(h), n, id, v);
    r := ExpandMembers(h, src, n, vars, a, v, id);
  }

  lemma ShowsJoin(s: State, n: Ptr, v: T.Value)
    requires Shows(s.cells, s.kids, n, v) && v.Compound?
    ensures s.cells[n].data == Members(v.join)
  {
  }

  /** The loop over the members; an error in one of them discards the new tree. */
  method ExpandMembers(h: Heap, src: Ptr, n: Ptr, vars: Vars, ghost a: State, ghost v: T.Value,
                       ghost id: Option<string>)
    returns (r: A.Outcome<Option<Ptr>>)
    requires h.Valid() && Good(a) && v.Compound? && Shows(a.cells, a.kids, src, v) && TreesOnly(vars)
    requires Copied(a, Now(h), n, T.Compound([], v.join)) && h.cells[n].id == id && id != Some(X.ARGS)
    modifies h, h.mem
    ensures h.Valid() && Expanded(a, Now(h), id, X.Expand(vars, T.Node(IdOf(id), v)), r)
    decreases v, 0
  {
    hide IsForest, Shows, Untouched, Copied, Under, TreesOnly, X.ExpandKids, Restored;
    ghost var i := 0;
    ghost var acc := [];
    assert v.kids[..0] == [];
    NothingExpanded(vars);
    CopyRoot(a, Now(h), n, T.Compound([], v.join));
    SourceRing(a, Now(h), src, v, 0);
    ghost var s := a.kids[src];
    var pos := h.mem.links[Fields(src)].next;
    while pos != Fields(src)
      invariant h.Valid() && i <= |v.kids| && |s| == |v.kids| && pos == At(src, s, i + 1)
      invariant Copied(a, Now(h), n, T.Compound(acc, v.join)) && n in h.cells && h.cells[n].id == id
      invariant X.ExpandKids(vars, v.kids[..i]) == A.Computed(acc)
      decreases |v.kids| - i
    {
      ghost var b := Now(h);
      CopyRoot(a, b, n, T.Compound(acc, v.join));
      SourceRing(a, b, src, v, i);
      var sn := pos.p;
      var snext := h.mem.links[pos].next;
      var e := ExpandNode(h, sn, vars, v.kids[i].value);
      assert v.kids[..i] + [v.kids[i]] == v.kids[..i + 1];
      ExpandMore(vars, v.kids[..i], v.kids[i]);
      if !e.Computed? {
        assert v.kids[..i + 1] + v.kids[i + 1..] == v.kids;
        ExpandStops(vars, v.kids[..i + 1], v.kids[i + 1..]);
        CopiedRestored(a, b, Now(h), n, T.Compound(acc, v.join));
        Discard(h, n, a, T.Compound(acc, v.join));
        return if e.Failed? then A.Failed else A.Undefined;
      }
      if e.v.Some? {
        NewId(vars, v.kids[..i], v.kids[i].id);
        ghost var k := X.Expand(vars, v.kids[i]).v.value;
        AddNew(h, n, e.v.value, a, b, T.Compound(acc, v.join), k);
        acc := acc + [k];
      } else {
        CopiedRestored(a, b, Now(h), n, T.Compound(acc, v.join));
        assert acc + [] == acc;
      }
      pos := snext;
      i := i + 1;
    }
    assert v.kids[..i] == v.kids;
    return A.Computed(Some(n));
  }

  lemma NothingExpanded(vars: Vars)
    ensures X.ExpandKids(vars, []) == A.Computed([])
  {
  }

  lemma CopiedRestored(a: State, b: State, c: State, n: Ptr, v: T.Value)
    requires Good(a) && Good(b) && Good(c) && Copied(a, b, n, v) && Restored(b, c)
    ensures Copied(a, c, n, v) && n in c.cells && n in b.cells && c.cells[n] == b.cells[n]
  {
    UntouchedTwice(a, b, c);
    UntouchedShows(b, c, n, v);
    forall m | m in c.cells && m !in a.cells
      ensures Under(c.cells, c.rank, m, n) && c.cells[m].refcount == 0
    {
      UntouchedUnder(b, c, m, n);
    }
  }
}
