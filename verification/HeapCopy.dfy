/** snd_config_copy on nodes in memory (conf.c:4897-5027): an equal tree of new nodes. */
module HeapCopying {
  import opened Numbers
  import T = Tree
  import opened Ring
  import opened Forest
  import opened ConfigHeap
  import opened HeapTree
  import opened HeapMerging

  /** Everything that was there is as it was. */
  ghost predicate Untouched(a: State, b: State) {
    Outside(a, b, {}, a.kids)
  }

  lemma UntouchedTwice(a: State, b: State, c: State)
    requires Untouched(a, b) && Untouched(b, c)
    ensures Untouched(a, c)
  {
  }

  lemma UntouchedUnder(a: State, b: State, m: Ptr, n: Ptr)
    requires Good(a) && Good(b) && Untouched(a, b) && m in a.cells
    ensures m in b.cells && Under(b.cells, b.rank, m, n) == Under(a.cells, a.rank, m, n)
    ensures n !in a.cells ==> !Under(b.cells, b.rank, m, n)
  {
    OutsideUnder(a.cells, a.rank, b.cells, b.rank, {}, m, n);
    if Under(a.cells, a.rank, m, n) {
      UnderRank(a.cells, a.rank, m, n);
    }
  }

  lemma UntouchedShows(a: State, b: State, n: Ptr, v: T.Value)
    requires Good(a) && Untouched(a, b) && Shows(a.cells, a.kids, n, v)
    ensures Shows(b.cells, b.kids, n, v)
  {
    ShowsFrame(a.cells, a.kids, a.rank, b.cells, b.kids, n, v);
  }

  /** d, a tree of its own, has become the last member of n. */
  ghost predicate AddDone(s: State, t: State, n: Ptr, d: Ptr) {
    && Good(s) && Good(t) && n in s.cells && n in s.kids && d in s.cells && n != d
    && s.cells[d].parent.None? && !Under(s.cells, s.rank, n, d)
    && t.cells == Adopt(s.cells, d, n) && t.kids == s.kids[n := s.kids[n] + [d]]
  }

  lemma AddKept(s: State, t: State, n: Ptr, d: Ptr, c: Ptr)
    requires AddDone(s, t, n, d) && c in s.cells && !Under(s.cells, s.rank, n, c)
    ensures SameBelow(s.cells, s.kids, s.rank, t.cells, t.kids, c)
  {
  }

  lemma AddShows(s: State, t: State, n: Ptr, d: Ptr, v: T.Value, k: T.Node)
    requires AddDone(s, t, n, d) && v.Compound? && Shows(s.cells, s.kids, n, v) && ShowsNode(s.cells, s.kids, d, k)
    ensures Shows(t.cells, t.kids, n, T.Compound(v.kids + [k], v.join))
  {
    var ks := v.kids + [k];
    assert ShowsAll(s.cells, s.kids, s.kids[n], v.kids);
    forall i | 0 <= i < |ks|
      ensures ShowsNode(t.cells, t.kids, t.kids[n][i], ks[i])
    {
      var c := t.kids[n][i];
      if i < |v.kids| {
        assert ShowsNode(s.cells, s.kids, c, ks[i]) && c in s.kids[n];
        MemberUnder(s.cells, s.rank, c, n);
      }
      AddKept(s, t, n, d, c);
      ShowsFrame(s.cells, s.kids, s.rank, t.cells, t.kids, c, ks[i].value);
    }
  }

  lemma AddUnder(s: State, t: State, n: Ptr, d: Ptr, m: Ptr)
    requires AddDone(s, t, n, d) && m in s.cells && (Under(s.cells, s.rank, m, n) || Under(s.cells, s.rank, m, d))
    ensures Under(t.cells, t.rank, m, n)
  {
    MemberUnder(t.cells, t.rank, d, n);
    var zone := Below(s.cells, s.rank, d);
    assert d in zone;
    if m in zone {
      if m != d {
        InsideUnder(s.cells, s.rank, t.cells, t.rank, d, d, m);
        UnderTrans(t.cells, t.rank, m, d, n);
      }
    } else {
      assert SameOutside(s.cells, t.cells, zone);
      OutsideUnder(s.cells, s.rank, t.cells, t.rank, zone, m, n);
    }
  }

  /** n is a root that stands for v; it and what is below it are the nodes that have come since a. */
  ghost predicate Copied(a: State, b: State, n: Ptr, v: T.Value) {
    && Good(b) && Untouched(a, b) && Shows(b.cells, b.kids, n, v)
    && n !in a.cells && n in b.cells && b.cells[n].parent.None? && b.cells[n].refcount == 0
    && forall m | m in b.cells && m !in a.cells :: Under(b.cells, b.rank, m, n) && b.cells[m].refcount == 0
  }

  /** The copy and what was there before share no node. */
  lemma CopyDisjoint(a: State, b: State, n: Ptr, v: T.Value)
    requires Good(a) && Copied(a, b, n, v)
    ensures Below(b.cells, b.rank, n) == b.cells.Keys - a.cells.Keys
  {
    forall m | m in b.cells
      ensures m in Below(b.cells, b.rank, n) <==> m !in a.cells
    {
      if m in a.cells {
        UntouchedUnder(a, b, m, n);
      }
    }
  }

  /** One round: a copy d of a child is added to the copy n of its parent. */
  lemma CopyStep(a: State, b: State, c: State, t: State, n: Ptr, d: Ptr, v: T.Value, k: T.Node)
    requires Good(a) && Copied(a, b, n, v) && v.Compound?
    requires Copied(b, c, d, k.value) && c.cells[d].id == Some(k.id)
    requires AddDone(c, t, n, d)
    ensures Copied(a, t, n, T.Compound(v.kids + [k], v.join))
    ensures t.cells[n] == b.cells[n]
  {
    assert b.cells[n] == c.cells[n] == t.cells[n];
    hide Under, IsForest, Outside;
    UntouchedShows(b, c, n, v);
    AddShows(c, t, n, d, v, k);
    UntouchedTwice(a, b, c);
    AddUntouched(a, b, c, t, n, d);
    forall m | m in t.cells && m !in a.cells
      ensures Under(t.cells, t.rank, m, n) && t.cells[m].refcount == 0
    {
      CopyStepUnder(a, b, c, t, n, d, v, k, m);
    }
  }

  lemma AddUntouched(a: State, b: State, c: State, t: State, n: Ptr, d: Ptr)
    requires Untouched(a, b) && Untouched(a, c) && AddDone(c, t, n, d) && n !in a.cells && d !in b.cells
    ensures Untouched(a, t)
  {
  }

  lemma CopyStepUnder(a: State, b: State, c: State, t: State, n: Ptr, d: Ptr, v: T.Value, k: T.Node, m: Ptr)
    requires Good(a) && Copied(a, b, n, v) && Copied(b, c, d, k.value) && AddDone(c, t, n, d)
    requires m in t.cells && m !in a.cells
    ensures Under(t.cells, t.rank, m, n) && t.cells[m].refcount == 0
  {
    if m in b.cells {
      UntouchedUnder(b, c, m, n);
    }
    AddUnder(c, t, n, d, m);
  }

  lemma CopyFresh(b: State, c: State, n: Ptr, d: Ptr, v: T.Value)
    requires Good(b) && n in b.cells && Copied(b, c, d, v)
    ensures n in c.cells && n != d && !Under(c.cells, c.rank, n, d) && c.cells[n] == b.cells[n]
    ensures n in b.kids ==> n in c.kids && c.kids[n] == b.kids[n]
  {
    UntouchedUnder(b, c, n, d);
  }

  /** snd_config_copy: a new tree that stands for the same value. */
  method CopyNode(h: Heap, src: Ptr, ghost v: T.Value) returns (n: Ptr)
    requires h.Valid() && Shows(h.cells, h.kids, src, v)
    modifies h, h.mem
    ensures h.Valid() && Copied(old(Now(h)), Now(h), n, v) && h.cells[n].id == old(h.cells[src].id)
    decreases v, 1
  {
    ghost var a := Now(h);
    ShowsKind(a, src, v);
    n := h.Make(h.cells[src].id, h.cells[src].data);
    MadeCopied(a, Now(h), n, src, v);
    if h.cells[n].data.Members? {
      CopyMembers(h, src, n, a, v);
    }
  }

  lemma MadeCopied(a: State, b: State, n: Ptr, src: Ptr, v: T.Value)
    requires Good(a) && Good(b) && n !in a.cells && Shows(a.cells, a.kids, src, v)
    requires b.cells == a.cells[n := Cell(a.cells[src].id, a.cells[src].data, 0, None)]
    requires b.kids == if a.cells[src].data.Members? then a.kids[n := []] else a.kids
    ensures Copied(a, b, n, if v.Compound? then T.Compound([], v.join) else v)
  {
    assert n !in a.kids;
    assert Under(b.cells, b.rank, n, n);
  }

  /** The loop of snd_config_walk over the members of src. */
  method CopyMembers(h: Heap, src: Ptr, n: Ptr, ghost a: State, ghost v: T.Value)
    requires h.Valid() && Good(a) && v.Compound? && Shows(a.cells, a.kids, src, v)
    requires Copied(a, Now(h), n, T.Compound([], v.join))
    modifies h, h.mem
    ensures h.Valid() && Copied(a, Now(h), n, v) && h.cells[n] == old(h.cells[n])
    decreases v, 0
  {
    hide IsForest, Shows, Untouched, Copied, AddDone, Under;
    ghost var i := 0;
    assert v.kids[..0] == [];
    CopyRoot(a, Now(h), n, T.Compound([], v.join));
    SourceRing(a, Now(h), src, v, 0);
    ghost var s := a.kids[src];
    var pos := h.mem.links[Fields(src)].next;
    while pos != Fields(src)
      invariant h.Valid() && i <= |v.kids| && |s| == |v.kids| && pos == At(src, s, i + 1)
      invariant Copied(a, Now(h), n, T.Compound(v.kids[..i], v.join)) && n in h.cells && h.cells[n] == old(h.cells[n])
      decreases |v.kids| - i
    {
      ghost var b := Now(h);
      CopyRoot(a, b, n, T.Compound(v.kids[..i], v.join));
      SourceRing(a, b, src, v, i);
      var sn := pos.p;
      var snext := h.mem.links[pos].next;
      var d := CopyAndAdd(h, n, sn, a, T.Compound(v.kids[..i], v.join), v.kids[i]);
      assert v.kids[..i] + [v.kids[i]] == v.kids[..i + 1];
      pos := snext;
      i := i + 1;
    }
    assert v.kids[..i] == v.kids;
  }

  /** The ring of src, which stays as it is all the time. */
  lemma SourceRing(a: State, b: State, src: Ptr, v: T.Value, i: nat)
    requires Good(a) && v.Compound? && Shows(a.cells, a.kids, src, v) && Good(b) && i <= |v.kids| && Untouched(a, b)
    ensures src in a.kids && |a.kids[src]| == |v.kids|
    ensures Fields(src) in b.links && b.links[Fields(src)].next == At(src, a.kids[src], 1)
    ensures i < |v.kids| ==>
              var e := At(src, a.kids[src], i + 1);
              && e in b.links && e == Entry(a.kids[src][i]) && b.links[e].next == At(src, a.kids[src], i + 2)
              && ShowsNode(b.cells, b.kids, a.kids[src][i], v.kids[i])
              && T.Find(v.kids[..i], v.kids[i].id).None?
  {
    UntouchedShows(a, b, src, v);
    assert b.kids[src] == a.kids[src];
    RingOf(b.links, b.kids, src);
    assert Linked(b.links, src, b.kids[src], 0);
    ShowsDistinct(a.links, a.cells, a.kids, a.rank, src, v);
    if i < |v.kids| {
      assert Linked(b.links, src, b.kids[src], i + 1);
      assert ShowsNode(b.cells, b.kids, b.kids[src][i], v.kids[i]);
    }
  }

  /** One child copied and added. */
  method CopyAndAdd(h: Heap, n: Ptr, sn: Ptr, ghost a: State, ghost v: T.Value, ghost k: T.Node) returns (d: Ptr)
    requires h.Valid() && Good(a) && v.Compound? && Copied(a, Now(h), n, v)
    requires ShowsNode(h.cells, h.kids, sn, k) && T.Find(v.kids, k.id).None?
    modifies h, h.mem
    ensures h.Valid() && n in h.cells && Copied(a, Now(h), n, T.Compound(v.kids + [k], v.join))
    ensures h.cells[n] == old(h.cells[n])
    decreases k
  {
    ghost var b := Now(h);
    CopyRoot(a, b, n, v);
    d := CopyNode(h, sn, k.value);
    AddNew(h, n, d, a, b, v, k);
  }

  /** A new tree becomes the last member of the new tree n. */
  method AddNew(h: Heap, n: Ptr, d: Ptr, ghost a: State, ghost b: State, ghost v: T.Value, ghost k: T.Node)
    requires h.Valid() && Good(a) && Good(b) && v.Compound? && Copied(a, b, n, v) && Copied(b, Now(h), d, k.value)
    requires h.cells[d].id == Some(k.id) && T.Find(v.kids, k.id).None?
    modifies h, h.mem
    ensures h.Valid() && n in b.cells && n in h.cells && h.cells[n] == b.cells[n]
    ensures Copied(a, Now(h), n, T.Compound(v.kids + [k], v.join))
  {
    ghost var c := Now(h);
    CopyRoot(a, b, n, v);
    CopyFresh(b, c, n, d, k.value);
    UntouchedShows(b, c, n, v);
    NoSuchMember(c, n, v, k.id);
    CopyRoot(b, c, d, k.value);
    hide Shows, Copied, Under, Compounds, Rings, Allocated, Up, Down, AllSiblingIds, Ranked;
    var e := h.Add(n, d);
    ErrnoCases(e);
    CopyStep(a, b, c, Now(h), n, d, v, k);
  }

  lemma CopyRoot(a: State, b: State, n: Ptr, v: T.Value)
    requires Copied(a, b, n, v)
    ensures Untouched(a, b) && n !in a.cells && n in b.cells && b.cells[n].parent.None? && b.cells[n].refcount == 0
    ensures v.Compound? ==> n in b.kids
  {
  }

  lemma NoSuchMember(s: State, n: Ptr, v: T.Value, id: string)
    requires v.Compound? && Shows(s.cells, s.kids, n, v) && T.Find(v.kids, id).None?
    ensures forall m | m in s.kids[n] :: m in s.cells && s.cells[m].id != Some(id)
  {
    forall m | m in s.kids[n]
      ensures m in s.cells && s.cells[m].id != Some(id)
    {
      var i :| 0 <= i < |s.kids[n]| && s.kids[n][i] == m;
      assert ShowsNode(s.cells, s.kids, s.kids[n][i], v.kids[i]);
    }
  }
}
