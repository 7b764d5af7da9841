/** Changes of the memory that stay below one node. */
module HeapFrame {
  import opened Numbers
  import T = Tree
  import opened Ring
  import opened Forest
  import opened Substitution
  import opened ConfigHeap
  import opened HeapTree
  import opened HeapMerging

  // ----- references that somebody holds

  /** Somebody holds a reference to m or to a node below it. */
  ghost predicate Busy(s: State, m: Ptr)
    requires Good(s)
  {
    exists k :: k in Below(s.cells, s.rank, m) && s.cells[k].refcount > 0
  }

  /** Every node that somebody holds is still there, at its place, and so is every node above it. */
  ghost predicate Steady(s: State, t: State)
    requires Good(s) && Good(t)
  {
    && (forall m | m in s.cells && Busy(s, m) ::
          && m in t.cells && Busy(t, m) && t.cells[m].id == s.cells[m].id
          && t.cells[m].parent == s.cells[m].parent && t.cells[m].refcount == s.cells[m].refcount)
    && (forall m | m in t.cells && Busy(t, m) :: m in s.cells && Busy(s, m))
  }

  /** The ids lead from p to a node at or below which somebody holds a reference. */
  ghost predicate BusyAt(s: State, p: Ptr, path: seq<string>)
    requires Good(s) && p in s.cells
    decreases |path|
  {
    if path == [] then Busy(s, p)
    else
      exists c ::
        c in s.cells && s.cells[c].parent == Some(p) && s.cells[c].id == Some(path[0]) && BusyAt(s, c, path[1..])
  }

  lemma FirstOnTheWay(s: State, p: Ptr, path: seq<string>) returns (c: Ptr)
    requires Good(s) && p in s.cells && path != [] && BusyAt(s, p, path)
    ensures c in s.cells && s.cells[c].parent == Some(p) && s.cells[c].id == Some(path[0]) && BusyAt(s, c, path[1..])
  {
    c :| c in s.cells && s.cells[c].parent == Some(p) && s.cells[c].id == Some(path[0]) && BusyAt(s, c, path[1..]);
  }

  ghost function BusyPaths(s: State, p: Ptr): iset<seq<string>>
    requires Good(s) && p in s.cells
  {
    iset path | BusyAt(s, p, path)
  }

  lemma BusyUp(s: State, c: Ptr, p: Ptr)
    requires Good(s) && c in s.cells && s.cells[c].parent == Some(p) && Busy(s, c)
    ensures p in s.cells && Busy(s, p)
  {
    var k :| k in Below(s.cells, s.rank, c) && s.cells[k].refcount > 0;
    MemberUnder(s.cells, s.rank, c, p);
    UnderTrans(s.cells, s.rank, k, c, p);
    assert k in Below(s.cells, s.rank, p);
  }

  lemma {:induction false} BusyOnTheWay(s: State, p: Ptr, path: seq<string>)
    requires Good(s) && p in s.cells && BusyAt(s, p, path)
    ensures Busy(s, p)
    decreases |path|
  {
    if path != [] {
      var c := FirstOnTheWay(s, p, path);
      BusyOnTheWay(s, c, path[1..]);
      BusyUp(s, c, p);
    }
  }

  /** The paths of a member are those of its parent that begin with its id. */
  lemma MemberPaths(s: State, p: Ptr, c: Ptr, id: string)
    requires Good(s) && p in s.cells && c in s.cells && s.cells[c].parent == Some(p) && s.cells[c].id == Some(id)
    ensures BusyPaths(s, c) == T.PathsIn(BusyPaths(s, p), id)
  {
    hide Busy, Rings, Up, Down, AllSiblingIds, Compounds, Allocated;
    forall path: seq<string>
      ensures BusyAt(s, c, path) <==> BusyAt(s, p, [id] + path)
    {
      var q := [id] + path;
      assert q[1..] == path;
      if BusyAt(s, p, q) {
        var d :| d in s.cells && s.cells[d].parent == Some(p) && s.cells[d].id == Some(q[0]) && BusyAt(s, d, q[1..]);
        if c != d {
          SiblingsDiffer(s.links, s.cells, s.kids, s.rank, c, d);
        }
      }
    }
  }

  lemma {:induction false} SteadyAt(s: State, t: State, p: Ptr, path: seq<string>)
    requires Good(s) && Good(t) && Steady(s, t) && p in s.cells && p in t.cells && BusyAt(s, p, path)
    ensures BusyAt(t, p, path)
    decreases |path|
  {
    hide Busy, IsForest;
    if path == [] {
      assert Busy(s, p);
    } else {
      var c := FirstOnTheWay(s, p, path);
      BusyOnTheWay(s, c, path[1..]);
      SteadyAt(s, t, c, path[1..]);
    }
  }

  lemma SteadyBack(s: State, t: State)
    requires Good(s) && Good(t) && Steady(s, t)
    ensures Steady(t, s)
  {
    hide Busy, IsForest;
  }

  lemma SteadyPaths(s: State, t: State, p: Ptr)
    requires Good(s) && Good(t) && Steady(s, t) && p in s.cells && p in t.cells
    ensures BusyPaths(s, p) == BusyPaths(t, p)
  {
    hide Busy, IsForest, Steady;
    SteadyBack(s, t);
    forall path: seq<string>
      ensures BusyAt(s, p, path) <==> BusyAt(t, p, path)
    {
      if BusyAt(s, p, path) {
        SteadyAt(s, t, p, path);
      }
      if BusyAt(t, p, path) {
        SteadyAt(t, s, p, path);
      }
    }
  }

  /** Nodes that both memories have are at the same place; nobody holds what only one of them has. */
  ghost predicate SamePlaces(s: State, t: State)
    requires Good(s) && Good(t)
  {
    && (forall m | m in s.cells && m in t.cells ::
          && t.cells[m].id == s.cells[m].id && t.cells[m].parent == s.cells[m].parent
          && t.cells[m].refcount == s.cells[m].refcount)
    && (forall m | m in s.cells && m !in t.cells :: s.cells[m].refcount == 0)
    && (forall m | m in t.cells && m !in s.cells :: t.cells[m].refcount == 0)
  }

  lemma {:induction false} SameUnder(s: State, t: State, m: Ptr, n: Ptr)
    requires Good(s) && Good(t) && SamePlaces(s, t) && m in s.cells && m in t.cells
    ensures Under(t.cells, t.rank, m, n) == Under(s.cells, s.rank, m, n)
    ensures Under(s.cells, s.rank, m, n) ==> n in s.cells && n in t.cells
    decreases s.rank[m]
  {
    if m != n && s.cells[m].parent.Some? {
      SameUnder(s, t, s.cells[m].parent.value, n);
    }
  }

  lemma SameBusy(s: State, t: State, m: Ptr)
    requires Good(s) && Good(t) && SamePlaces(s, t) && m in s.cells && Busy(s, m)
    ensures m in t.cells && Busy(t, m)
  {
    var k :| k in Below(s.cells, s.rank, m) && s.cells[k].refcount > 0;
    SameUnder(s, t, k, m);
    assert k in Below(t.cells, t.rank, m);
  }

  lemma SamePlacesSteady(s: State, t: State)
    requires Good(s) && Good(t) && SamePlaces(s, t)
    ensures Steady(s, t)
  {
    hide Busy, IsForest;
    forall m | m in s.cells && Busy(s, m)
      ensures m in t.cells && Busy(t, m)
    {
      SameBusy(s, t, m);
    }
    forall m | m in t.cells && Busy(t, m)
      ensures m in s.cells && Busy(s, m)
    {
      SameBusy(t, s, m);
    }
  }

  // ----- changes below a node

  /**
   From s to t only n and what is below it has changed: everything else is as it was, n keeps its place, id and count,
   every node that is new or was below n is below n, and every node that somebody holds is still at its place.
   */
  ghost predicate Within(s: State, t: State, n: Ptr) {
    && Good(s) && Good(t) && n in s.cells && n in t.cells
    && t.cells[n].parent == s.cells[n].parent && t.cells[n].id == s.cells[n].id
    && t.cells[n].refcount == s.cells[n].refcount
    && Outside(s, t, Below(s.cells, s.rank, n), s.kids)
    && (forall m | m in t.cells :: (m in s.cells && m !in Below(s.cells, s.rank, n)) || Under(t.cells, t.rank, m, n))
    && Steady(s, t)
  }

  lemma BelowClosed(s: State, t: State, n: Ptr)
    requires Good(s) && Outside(s, t, Below(s.cells, s.rank, n), s.kids)
    ensures SameOutside(s.cells, t.cells, Below(s.cells, s.rank, n))
  {
    forall m | m in s.cells && m !in Below(s.cells, s.rank, n) && s.cells[m].parent.Some?
      ensures s.cells[m].parent.value !in Below(s.cells, s.rank, n)
    {
    }
  }

  lemma WithinSelf(s: State, n: Ptr)
    requires Good(s) && n in s.cells
    ensures Within(s, s, n)
  {
    SamePlacesSteady(s, s);
  }

  /** What is outside stays outside. */
  lemma WithinOutside(s: State, t: State, n: Ptr, m: Ptr)
    requires Within(s, t, n) && m in s.cells && m !in Below(s.cells, s.rank, n)
    ensures m in t.cells && m !in Below(t.cells, t.rank, n)
  {
    BelowClosed(s, t, n);
    OutsideUnder(s.cells, s.rank, t.cells, t.rank, Below(s.cells, s.rank, n), m, n);
  }

  lemma WithinTwice(s: State, t: State, u: State, n: Ptr)
    requires Within(s, t, n) && Within(t, u, n)
    ensures Within(s, u, n)
  {
    hide Under, Rings, Up, AllSiblingIds, Compounds, Allocated, Down;
    forall m | m in s.cells && m !in Below(s.cells, s.rank, n)
      ensures m in t.cells && m !in Below(t.cells, t.rank, n)
    {
      WithinOutside(s, t, n, m);
    }
  }

  /** A root keeps its ancestors. */
  lemma WithinRoot(s: State, t: State, c: Ptr, n: Ptr)
    requires Within(s, t, c)
    ensures Under(t.cells, t.rank, c, n) == Under(s.cells, s.rank, c, n)
  {
    if c != n && s.cells[c].parent.Some? {
      var p := s.cells[c].parent.value;
      ParentOutside(s.cells, s.rank, c);
      BelowClosed(s, t, c);
      OutsideUnder(s.cells, s.rank, t.cells, t.rank, Below(s.cells, s.rank, c), p, n);
    }
  }

  /** What stays below c stays below a node above c. */
  lemma WithinUp(s: State, t: State, c: Ptr, n: Ptr)
    requires Within(s, t, c) && n in s.cells && Under(s.cells, s.rank, c, n)
    ensures Within(s, t, n)
  {
    if c != n {
      AboveOutside(s, c, n);
      forall m | m in s.cells && m in Below(s.cells, s.rank, c)
        ensures m in Below(s.cells, s.rank, n)
      {
        UnderTrans(s.cells, s.rank, m, c, n);
      }
      forall m | m in t.cells
        ensures (m in s.cells && m !in Below(s.cells, s.rank, n)) || Under(t.cells, t.rank, m, n)
      {
        WithinUpOne(s, t, c, n, m);
      }
    }
  }

  lemma AboveOutside(s: State, c: Ptr, n: Ptr)
    requires Good(s) && c in s.cells && n in s.cells && Under(s.cells, s.rank, c, n) && c != n
    ensures n !in Below(s.cells, s.rank, c)
  {
    UnderRank(s.cells, s.rank, c, n);
    if Under(s.cells, s.rank, n, c) {
      UnderRank(s.cells, s.rank, n, c);
    }
  }

  lemma WithinUpOne(s: State, t: State, c: Ptr, n: Ptr, m: Ptr)
    requires Within(s, t, c) && n in s.cells && Under(s.cells, s.rank, c, n) && c != n && m in t.cells
    ensures (m in s.cells && m !in Below(s.cells, s.rank, n)) || Under(t.cells, t.rank, m, n)
  {
    if m in s.cells && m !in Below(s.cells, s.rank, c) {
      BelowClosed(s, t, c);
      OutsideUnder(s.cells, s.rank, t.cells, t.rank, Below(s.cells, s.rank, c), m, n);
    } else {
      WithinRoot(s, t, c, n);
      UnderTrans(t.cells, t.rank, m, c, n);
    }
  }

  // ----- what that means for the trees

  lemma WithinApart(s: State, t: State, c: Ptr, d: Ptr)
    requires Within(s, t, c) && d in s.cells
    requires !Under(s.cells, s.rank, c, d) && !Under(s.cells, s.rank, d, c)
    ensures SameBelow(s.cells, s.kids, s.rank, t.cells, t.kids, d)
    ensures d in t.cells && t.cells[d] == s.cells[d]
  {
    Apart(s.cells, s.rank, c, d);
    assert d in Below(s.cells, s.rank, d);
  }

  /** A member has changed: its parent stands for the list with that child changed. */
  lemma MemberChanged(s: State, t: State, p: Ptr, j: nat, ks: seq<T.Node>, join: bool, v: T.Value)
    requires Good(s) && Shows(s.cells, s.kids, p, T.Compound(ks, join)) && j < |ks|
    requires p in s.kids && j < |s.kids[p]| && Within(s, t, s.kids[p][j]) && Shows(t.cells, t.kids, s.kids[p][j], v)
    ensures Shows(t.cells, t.kids, p, T.Compound(ks[j := T.Node(ks[j].id, v)], join))
    ensures p in t.kids && t.kids[p] == s.kids[p]
  {
    var c, ks' := s.kids[p][j], ks[j := T.Node(ks[j].id, v)];
    assert c in s.kids[p];
    MemberUnder(s.cells, s.rank, c, p);
    assert p !in Below(s.cells, s.rank, c);
    forall i | 0 <= i < |ks'|
      ensures ShowsNode(t.cells, t.kids, s.kids[p][i], ks'[i])
    {
      assert ShowsNode(s.cells, s.kids, s.kids[p][i], ks[i]);
      if i != j {
        OtherMember(s, t, p, i, j, ks[i]);
      }
    }
  }

  lemma OtherMember(s: State, t: State, p: Ptr, i: nat, j: nat, k: T.Node)
    requires Good(s) && p in s.kids && i < |s.kids[p]| && j < |s.kids[p]| && i != j && Within(s, t, s.kids[p][j])
    requires ShowsNode(s.cells, s.kids, s.kids[p][i], k)
    ensures ShowsNode(t.cells, t.kids, s.kids[p][i], k)
  {
    hide Within, Shows, Under, Rings, Up, AllSiblingIds, Compounds, Allocated, SameBelow;
    var c, d := s.kids[p][j], s.kids[p][i];
    assert c in s.kids[p] && d in s.kids[p];
    RingOf(s.links, s.kids, p);
    SiblingsApart(s.cells, s.rank, c, d);
    WithinApart(s, t, c, d);
    ShowsFrame(s.cells, s.kids, s.rank, t.cells, t.kids, d, k.value);
  }

  // ----- a new last member

  /** n, a scalar or a compound without members, is new at the end of p. */
  ghost predicate AddedLast(s: State, t: State, p: Ptr, n: Ptr, id: string, data: Data) {
    && Good(s) && Good(t) && p in s.cells && p in s.kids && n !in s.cells
    && t.cells == s.cells[n := Cell(Some(id), data, 0, Some(p))]
    && t.kids == (if data.Members? then s.kids[n := []] else s.kids)[p := s.kids[p] + [n]]
  }

  lemma AddedOutside(s: State, t: State, p: Ptr, n: Ptr, id: string, data: Data)
    requires AddedLast(s, t, p, n, id, data)
    ensures n !in s.kids && p != n
    ensures Outside(s, t, Below(s.cells, s.rank, p), s.kids)
  {
    assert p in Below(s.cells, s.rank, p);
  }

  lemma AddedUnder(s: State, t: State, p: Ptr, n: Ptr, id: string, data: Data, m: Ptr, x: Ptr)
    requires AddedLast(s, t, p, n, id, data) && m in s.cells
    ensures Under(t.cells, t.rank, m, x) == Under(s.cells, s.rank, m, x)
  {
    assert SameOutside(s.cells, t.cells, {});
    OutsideUnder(s.cells, s.rank, t.cells, t.rank, {}, m, x);
  }

  lemma AddedSteady(s: State, t: State, p: Ptr, n: Ptr, id: string, data: Data)
    requires AddedLast(s, t, p, n, id, data)
    ensures Steady(s, t)
  {
    hide Steady, IsForest;
    SamePlacesSteady(s, t);
  }

  lemma AddedWithin(s: State, t: State, p: Ptr, n: Ptr, id: string, data: Data)
    requires AddedLast(s, t, p, n, id, data)
    ensures Within(s, t, p)
  {
    AddedOutside(s, t, p, n, id, data);
    AddedSteady(s, t, p, n, id, data);
    hide Steady, Outside, Rings, Up, Down, AllSiblingIds, Compounds, Allocated;
    MemberUnder(t.cells, t.rank, n, p);
    forall m | m in t.cells
      ensures (m in s.cells && m !in Below(s.cells, s.rank, p)) || Under(t.cells, t.rank, m, p)
    {
      if m in s.cells {
        AddedUnder(s, t, p, n, id, data, m, p);
      }
    }
  }

  lemma AddedShows(s: State, t: State, p: Ptr, n: Ptr, id: string, data: Data, v: T.Value, ks: seq<T.Node>, join: bool)
    requires AddedLast(s, t, p, n, id, data) && Shows(s.cells, s.kids, p, T.Compound(ks, join))
    requires if data.Members? then v == T.Compound([], data.join) else v == data.value && !v.Compound?
    ensures Shows(t.cells, t.kids, p, T.Compound(ks + [T.Node(id, v)], join))
    ensures Shows(t.cells, t.kids, n, v)
  {
    AddedOutside(s, t, p, n, id, data);
    var ks' := ks + [T.Node(id, v)];
    assert ShowsAll(s.cells, s.kids, s.kids[p], ks);
    forall i | 0 <= i < |ks'|
      ensures ShowsNode(t.cells, t.kids, t.kids[p][i], ks'[i])
    {
      if i < |ks| {
        AddedOther(s, t, p, n, id, data, i, ks[i]);
      }
    }
  }

  lemma AddedOther(s: State, t: State, p: Ptr, n: Ptr, id: string, data: Data, i: nat, k: T.Node)
    requires AddedLast(s, t, p, n, id, data) && i < |s.kids[p]| && ShowsNode(s.cells, s.kids, s.kids[p][i], k)
    ensures ShowsNode(t.cells, t.kids, s.kids[p][i], k)
  {
    AddedOutside(s, t, p, n, id, data);
    var d := s.kids[p][i];
    assert d in s.kids[p];
    MemberUnder(s.cells, s.rank, d, p);
    ShowsFrame(s.cells, s.kids, s.rank, t.cells, t.kids, d, k.value);
  }

  // ----- a member gone

  /** The member c of p has been deleted with all that was below it. */
  ghost predicate MemberGone(s: State, t: State, p: Ptr, j: nat) {
    && Good(s) && Good(t) && p in s.cells && p in s.kids && j < |s.kids[p]|
    && var c := s.kids[p][j];
    && t.cells == s.cells - Below(s.cells, s.rank, c)
    && t.kids == s.kids[p := Drop(s.kids[p], j)] - Below(s.cells, s.rank, c)
  }

  lemma GoneFacts(s: State, t: State, p: Ptr, j: nat)
    requires MemberGone(s, t, p, j)
    ensures var c := s.kids[p][j];
            && c in s.cells && p !in Below(s.cells, s.rank, c) && Below(s.cells, s.rank, c) <= Below(s.cells, s.rank, p)
            && p in t.cells && p in t.kids && t.kids[p] == Drop(s.kids[p], j)
  {
    var c := s.kids[p][j];
    assert c in s.kids[p];
    MemberUnder(s.cells, s.rank, c, p);
    forall m | m in Below(s.cells, s.rank, c)
      ensures m in Below(s.cells, s.rank, p)
    {
      UnderTrans(s.cells, s.rank, m, c, p);
    }
  }

  lemma GoneSteady(s: State, t: State, p: Ptr, j: nat)
    requires MemberGone(s, t, p, j) && !Busy(s, s.kids[p][j])
    ensures Steady(s, t)
  {
    hide Steady, Under, Rings, Up, Down, AllSiblingIds, Compounds, Allocated;
    forall m | m in s.cells && m !in t.cells
      ensures s.cells[m].refcount == 0
    {
      assert m in Below(s.cells, s.rank, s.kids[p][j]);
    }
    hide Busy;
    SamePlacesSteady(s, t);
  }

  lemma GoneOutside(s: State, t: State, p: Ptr, j: nat)
    requires MemberGone(s, t, p, j)
    ensures Outside(s, t, Below(s.cells, s.rank, p), s.kids)
  {
    GoneFacts(s, t, p, j);
    assert p in Below(s.cells, s.rank, p);
    hide IsForest, Under;
  }

  lemma GoneWithin(s: State, t: State, p: Ptr, j: nat)
    requires MemberGone(s, t, p, j) && !Busy(s, s.kids[p][j])
    ensures Within(s, t, p)
  {
    GoneFacts(s, t, p, j);
    GoneSteady(s, t, p, j);
    GoneOutside(s, t, p, j);
    hide Steady, Busy, Outside, Rings, Up, Down, AllSiblingIds, Compounds, Allocated;
    forall m | m in t.cells
      ensures (m in s.cells && m !in Below(s.cells, s.rank, p)) || Under(t.cells, t.rank, m, p)
    {
      GoneUnder(s, t, p, j, m, p);
    }
  }

  lemma {:induction false} GoneUnder(s: State, t: State, p: Ptr, j: nat, m: Ptr, x: Ptr)
    requires MemberGone(s, t, p, j) && m in t.cells
    ensures Under(t.cells, t.rank, m, x) == Under(s.cells, s.rank, m, x)
    decreases s.rank[m]
  {
    if m != x && s.cells[m].parent.Some? {
      GoneUnder(s, t, p, j, s.cells[m].parent.value, x);
    }
  }

  lemma GoneShows(s: State, t: State, p: Ptr, j: nat, ks: seq<T.Node>, join: bool)
    requires MemberGone(s, t, p, j) && Shows(s.cells, s.kids, p, T.Compound(ks, join)) && j < |ks|
    ensures Shows(t.cells, t.kids, p, T.Compound(T.Delete(ks, j), join))
  {
    GoneFacts(s, t, p, j);
    hide IsForest, Under;
    var ks' := T.Delete(ks, j);
    assert ShowsAll(s.cells, s.kids, s.kids[p], ks);
    forall i | 0 <= i < |ks'|
      ensures ShowsNode(t.cells, t.kids, t.kids[p][i], ks'[i])
    {
      GoneOther(s, t, p, j, if i < j then i else i + 1, ks[if i < j then i else i + 1]);
    }
  }

  lemma GoneOther(s: State, t: State, p: Ptr, j: nat, i: nat, k: T.Node)
    requires MemberGone(s, t, p, j) && i < |s.kids[p]| && i != j && ShowsNode(s.cells, s.kids, s.kids[p][i], k)
    ensures ShowsNode(t.cells, t.kids, s.kids[p][i], k)
  {
    var c, d := s.kids[p][j], s.kids[p][i];
    assert c in s.kids[p] && d in s.kids[p];
    RingOf(s.links, s.kids, p);
    SiblingsApart(s.cells, s.rank, c, d);
    Apart(s.cells, s.rank, c, d);
    MemberUnder(s.cells, s.rank, d, p);
    assert d in Below(s.cells, s.rank, d);
    ShowsFrame(s.cells, s.kids, s.rank, t.cells, t.kids, d, k.value);
  }

  // ----- the value of a node

  /** The data of c are new; a compound keeps its members, a scalar stays one. */
  ghost predicate DataSet(s: State, t: State, c: Ptr, data: Data) {
    && Good(s) && Good(t) && c in s.cells && data.Members? == s.cells[c].data.Members?
    && t.cells == s.cells[c := s.cells[c].(data := data)] && t.kids == s.kids
  }

  lemma SetSteady(s: State, t: State, c: Ptr, data: Data)
    requires DataSet(s, t, c, data)
    ensures Steady(s, t)
  {
    hide Steady, IsForest;
    SamePlacesSteady(s, t);
  }

  lemma SetUnder(s: State, t: State, c: Ptr, data: Data, m: Ptr, x: Ptr)
    requires DataSet(s, t, c, data) && m in s.cells
    ensures Under(t.cells, t.rank, m, x) == Under(s.cells, s.rank, m, x)
  {
    assert SameOutside(s.cells, t.cells, {});
    OutsideUnder(s.cells, s.rank, t.cells, t.rank, {}, m, x);
  }

  lemma SetOutside(s: State, t: State, c: Ptr, data: Data)
    requires DataSet(s, t, c, data)
    ensures Outside(s, t, Below(s.cells, s.rank, c), s.kids)
  {
    assert c in Below(s.cells, s.rank, c);
    hide Under, Rings, Up, Down, AllSiblingIds, Compounds, Allocated;
  }

  lemma SetWithin(s: State, t: State, c: Ptr, data: Data)
    requires DataSet(s, t, c, data)
    ensures Within(s, t, c)
  {
    SetSteady(s, t, c, data);
    SetOutside(s, t, c, data);
    hide Steady, Outside, Under, Rings, Up, Down, AllSiblingIds, Compounds, Allocated;
    forall m | m in t.cells && m in Below(s.cells, s.rank, c)
      ensures Under(t.cells, t.rank, m, c)
    {
      SetUnder(s, t, c, data, m, c);
    }
  }

  lemma SetShows(s: State, t: State, c: Ptr, data: Data, v: T.Value)
    requires DataSet(s, t, c, data) && Shows(s.cells, s.kids, c, v) && (data.Scalar? ==> !data.value.Compound?)
    ensures Shows(t.cells, t.kids, c, if data.Scalar? then data.value else T.Compound(v.kids, data.join))
  {
    if data.Members? {
      assert ShowsAll(s.cells, s.kids, s.kids[c], v.kids);
      forall i | 0 <= i < |v.kids|
        ensures ShowsNode(t.cells, t.kids, s.kids[c][i], v.kids[i])
      {
        SetMember(s, t, c, data, i, v.kids[i]);
      }
    }
  }

  lemma SetMember(s: State, t: State, c: Ptr, data: Data, i: nat, k: T.Node)
    requires DataSet(s, t, c, data) && c in s.kids && i < |s.kids[c]| && ShowsNode(s.cells, s.kids, s.kids[c][i], k)
    ensures ShowsNode(t.cells, t.kids, s.kids[c][i], k)
  {
    var d := s.kids[c][i];
    assert d in s.kids[c];
    MemberUnder(s.cells, s.rank, d, c);
    ShowsFrame(s.cells, s.kids, s.rank, t.cells, t.kids, d, k.value);
  }
}
