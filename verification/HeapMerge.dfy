/** snd_config_merge on nodes in memory (conf.c:2253-2344): it is the merge of the trees they stand for. */
module HeapMerging {
  import opened Numbers
  import T = Tree
  import M = Merging
  import opened Ring
  import opened Forest
  import opened Substitution
  import opened ConfigHeap
  import opened HeapTree

  // ----- two trees that hang apart

  /** The nodes of both trees. */
  ghost function Zone(s: State, a: Ptr, b: Ptr): set<Ptr>
    requires Good(s)
  {
    Below(s.cells, s.rank, a) + Below(s.cells, s.rank, b)
  }

  /** Two different trees, neither in the other. */
  ghost predicate Fit(s: State, dst: Ptr, src: Ptr) {
    && Good(s) && dst in s.cells && src in s.cells
    && !Under(s.cells, s.rank, dst, src) && !Under(s.cells, s.rank, src, dst)
  }

  /** Nobody holds a reference to a node strictly below n. */
  ghost predicate ZeroBelow(s: State, n: Ptr)
    requires Good(s)
  {
    forall m | m in Below(s.cells, s.rank, n) && m != n :: s.cells[m].refcount == 0
  }

  /** No node is new, no count has changed, and every node that somebody holds is still there. */
  ghost predicate NoneLost(a: State, b: State) {
    && (forall m | m in b.cells :: m in a.cells && b.cells[m].refcount == a.cells[m].refcount)
    && (forall m | m in a.cells && a.cells[m].refcount > 0 :: m in b.cells)
  }

  /** Outside the zone the cells are the same, and the member lists are those given. */
  ghost predicate Outside(a: State, b: State, zone: set<Ptr>, kids: Kids) {
    forall m | m in a.cells && m !in zone ::
      && m in b.cells && b.cells[m] == a.cells[m]
      && (m in b.kids <==> m in kids)
      && (m in kids && m in b.kids ==> b.kids[m] == kids[m])
  }

  /**
   * From a to b, the tree of src has been merged into that of dst, which stands for v now: src is gone, every node
   * of either tree that is left is below dst, what somebody holds is left, and elsewhere only the siblings of src have
   * lost it.
   */
  ghost predicate Merged(a: State, b: State, dst: Ptr, src: Ptr, v: T.Value)
    requires Good(a) && dst in a.cells && src in a.cells
  {
    && Good(b) && Shows(b.cells, b.kids, dst, v)
    && src !in b.cells && dst in b.cells
    && b.cells[dst].parent == a.cells[dst].parent
    && Outside(a, b, Zone(a, dst, src), Unlisted(a.cells, a.kids, src))
    && NoneLost(a, b)
    && (forall m | m in b.cells && m in Zone(a, dst, src) && m != dst :: Under(b.cells, b.rank, m, dst))
  }

  /** Between a and b, some members of src have been merged into dst; acc and rest are what dst and src stand for. */
  ghost predicate Amid(a: State, b: State, dst: Ptr, src: Ptr, acc: T.Value, rest: T.Value)
    requires Fit(a, dst, src)
  {
    && Good(b) && dst in b.cells && src in b.cells
    && acc.Compound? && Shows(b.cells, b.kids, dst, acc)
    && rest.Compound? && Shows(b.cells, b.kids, src, rest)
    && b.cells[dst] == a.cells[dst] && b.cells[src] == a.cells[src]
    && Outside(a, b, Zone(a, dst, src), a.kids)
    && NoneLost(a, b)
    && (forall m | m in b.cells && m in Zone(a, dst, src) && m != dst ::
          Under(b.cells, b.rank, m, dst) || Under(b.cells, b.rank, m, src))
  }

  // ----- zones

  lemma ZoneClosed(a: State, b: State, dst: Ptr, src: Ptr, kids: Kids)
    requires Good(a) && Outside(a, b, Zone(a, dst, src), kids)
    ensures SameOutside(a.cells, b.cells, Zone(a, dst, src))
  {
    var zone := Zone(a, dst, src);
    forall m | m in a.cells && m !in zone && a.cells[m].parent.Some?
      ensures a.cells[m].parent.value !in zone
    {
    }
  }

  /** A root of the zone whose cell has not changed is below the same nodes as before. */
  lemma RootUnder(a: State, b: State, dst: Ptr, src: Ptr, kids: Kids, r: Ptr, n: Ptr)
    requires Fit(a, dst, src) && Good(b) && Outside(a, b, Zone(a, dst, src), kids)
    requires (r == dst || r == src) && r in b.cells && b.cells[r].parent == a.cells[r].parent
    ensures Under(b.cells, b.rank, r, n) == Under(a.cells, a.rank, r, n)
  {
    ZoneClosed(a, b, dst, src, kids);
    if r != n && a.cells[r].parent.Some? {
      var p := a.cells[r].parent.value;
      RootParentOutside(a, dst, src, r);
      OutsideUnder(a.cells, a.rank, b.cells, b.rank, Zone(a, dst, src), p, n);
    }
  }

  lemma RootParentOutside(a: State, dst: Ptr, src: Ptr, r: Ptr)
    requires Fit(a, dst, src) && (r == dst || r == src) && a.cells[r].parent.Some?
    ensures a.cells[r].parent.value in a.cells && a.cells[r].parent.value !in Zone(a, dst, src)
  {
    ParentOutside(a.cells, a.rank, r);
    var other := if r == dst then src else dst;
    assert Under(a.cells, a.rank, r, other) == Under(a.cells, a.rank, a.cells[r].parent.value, other);
  }

  /** In the middle the trees still hang apart, and the zone is what it was less the freed nodes. */
  lemma AmidFit(a: State, b: State, dst: Ptr, src: Ptr, acc: T.Value, rest: T.Value)
    requires Fit(a, dst, src) && Amid(a, b, dst, src, acc, rest)
    ensures Fit(b, dst, src)
    ensures forall m | m in b.cells :: m in Zone(b, dst, src) <==> m in Zone(a, dst, src)
  {
    RootUnder(a, b, dst, src, a.kids, dst, src);
    RootUnder(a, b, dst, src, a.kids, src, dst);
    forall m | m in b.cells
      ensures m in Zone(b, dst, src) <==> m in Zone(a, dst, src)
    {
      if m !in Zone(a, dst, src) {
        ZoneClosed(a, b, dst, src, a.kids);
        OutsideUnder(a.cells, a.rank, b.cells, b.rank, Zone(a, dst, src), m, dst);
        OutsideUnder(a.cells, a.rank, b.cells, b.rank, Zone(a, dst, src), m, src);
      } else if m == dst {
        assert Under(b.cells, b.rank, m, dst);
      }
    }
  }

  lemma AmidStart(a: State, dst: Ptr, src: Ptr, d: T.Value, s: T.Value)
    requires Fit(a, dst, src) && d.Compound? && s.Compound?
    requires Shows(a.cells, a.kids, dst, d) && Shows(a.cells, a.kids, src, s)
    ensures Amid(a, a, dst, src, d, s)
  {
  }

  /** Two members, one of each tree, make a fitting pair inside the zone. */
  lemma MembersFit(s: State, dst: Ptr, src: Ptr, dn: Ptr, sn: Ptr)
    requires Fit(s, dst, src) && dst in s.kids && src in s.kids && dn in s.kids[dst] && sn in s.kids[src]
    ensures Fit(s, dn, sn) && Zone(s, dn, sn) <= Zone(s, dst, src) - {dst, src}
  {
    MemberUnder(s.cells, s.rank, dn, dst);
    MemberUnder(s.cells, s.rank, sn, src);
    ApartBelow(s.cells, s.rank, dst, src, dn, sn);
    assert Under(s.cells, s.rank, dst, dst) && Under(s.cells, s.rank, src, src);
    ApartBelow(s.cells, s.rank, dst, src, dst, sn);
    ApartBelow(s.cells, s.rank, dst, src, dn, src);
    forall m | m in Zone(s, dn, sn)
      ensures m in Zone(s, dst, src) - {dst, src}
    {
      if Under(s.cells, s.rank, m, dn) {
        UnderTrans(s.cells, s.rank, m, dn, dst);
      } else {
        UnderTrans(s.cells, s.rank, m, sn, src);
      }
    }
  }

  // ----- one member merged with its partner

  /** The nodes below c are the same in both memories; c itself may have another place and id. */
  ghost predicate Unmoved(s: State, t: State, c: Ptr)
    requires Good(s)
  {
    forall m | m in Below(s.cells, s.rank, c) ::
      && m in t.cells && t.cells[m].data == s.cells[m].data && t.cells[m].refcount == s.cells[m].refcount
      && (m in s.kids ==> m in t.kids && t.kids[m] == s.kids[m])
  }

  /** A tree apart from the zone of the step is what it was. */
  lemma ApartKept(s: State, t: State, dn: Ptr, sn: Ptr, c: Ptr, v: T.Value)
    requires Good(s) && dn in s.cells && sn in s.cells && Merged(s, t, dn, sn, v)
    requires c in s.cells
    requires !Under(s.cells, s.rank, c, dn) && !Under(s.cells, s.rank, dn, c)
    requires !Under(s.cells, s.rank, c, sn) && !Under(s.cells, s.rank, sn, c)
    ensures SameBelow(s.cells, s.kids, s.rank, t.cells, t.kids, c) && Unmoved(s, t, c)
    ensures c in t.cells && t.cells[c] == s.cells[c]
  {
    Apart(s.cells, s.rank, c, dn);
    Apart(s.cells, s.rank, c, sn);
    assert c in Below(s.cells, s.rank, c);
    forall m | m in Below(s.cells, s.rank, c)
      ensures m in t.cells && t.cells[m] == s.cells[m]
      ensures m in s.kids ==> m in t.kids && t.kids[m] == s.kids[m]
    {
      assert m !in Zone(s, dn, sn);
      assert s.cells[sn].parent != Some(m);
    }
  }

  /** dn is the j-th member of dst, sn the first of src, and t is s after they have been merged. */
  ghost predicate PairDone(s: State, t: State, dst: Ptr, src: Ptr, j: nat, v: T.Value) {
    && Fit(s, dst, src) && dst in s.kids && src in s.kids && j < |s.kids[dst]| && 0 < |s.kids[src]|
    && var dn, sn := s.kids[dst][j], s.kids[src][0];
    && dn in s.cells && sn in s.cells && Merged(s, t, dn, sn, v) && t.cells[dn].id == s.cells[dn].id
  }

  /** What the step leaves of the two roots. */
  lemma PairRoots(s: State, t: State, dst: Ptr, src: Ptr, j: nat, v: T.Value)
    requires PairDone(s, t, dst, src, j, v)
    ensures dst in t.cells && src in t.cells && t.cells[dst] == s.cells[dst] && t.cells[src] == s.cells[src]
    ensures dst in t.kids && t.kids[dst] == s.kids[dst]
    ensures src in t.kids && t.kids[src] == s.kids[src][1..]
  {
    var dn, sn := s.kids[dst][j], s.kids[src][0];
    assert dn in s.kids[dst] && sn in s.kids[src];
    MembersFit(s, dst, src, dn, sn);
    assert dst !in Zone(s, dn, sn) && src !in Zone(s, dn, sn);
    assert s.cells[sn].parent == Some(src) && dst != src;
    assert Minus(s.kids[src], sn) == s.kids[src][1..];
  }

  lemma PairShowsDst(s: State, t: State, dst: Ptr, src: Ptr, j: nat, v: T.Value, acc: T.Value)
    requires PairDone(s, t, dst, src, j, v)
    requires acc.Compound? && Shows(s.cells, s.kids, dst, acc)
    ensures j < |acc.kids|
    ensures Shows(t.cells, t.kids, dst, T.Compound(acc.kids[j := T.Node(acc.kids[j].id, v)], acc.join))
  {
    var dn, sn := s.kids[dst][j], s.kids[src][0];
    var ks := acc.kids[j := T.Node(acc.kids[j].id, v)];
    PairRoots(s, t, dst, src, j, v);
    forall i | 0 <= i < |ks|
      ensures ShowsNode(t.cells, t.kids, s.kids[dst][i], ks[i])
    {
      assert ShowsNode(s.cells, s.kids, s.kids[dst][i], acc.kids[i]);
      if i != j {
        OtherMemberKept(s, t, dst, src, j, v, i);
        ShowsFrame(s.cells, s.kids, s.rank, t.cells, t.kids, s.kids[dst][i], acc.kids[i].value);
      }
    }
  }

  lemma OtherMemberKept(s: State, t: State, dst: Ptr, src: Ptr, j: nat, v: T.Value, i: nat)
    requires PairDone(s, t, dst, src, j, v) && i < |s.kids[dst]| && i != j
    ensures var c := s.kids[dst][i];
            && c in s.cells && c in t.cells && t.cells[c].id == s.cells[c].id
            && SameBelow(s.cells, s.kids, s.rank, t.cells, t.kids, c) && Unmoved(s, t, c)
  {
    hide Merged, SameBelow, Unmoved, Zone, Under, Rings, AllSiblingIds, Up, Compounds, Allocated;
    var c, dn, sn := s.kids[dst][i], s.kids[dst][j], s.kids[src][0];
    assert c in s.kids[dst] && dn in s.kids[dst] && sn in s.kids[src];
    RingOf(s.links, s.kids, dst);
    assert c != dn;
    SiblingsApart(s.cells, s.rank, c, dn);
    MembersFit(s, dst, src, c, sn);
    ApartKept(s, t, dn, sn, c, v);
  }

  lemma PairShowsSrc(s: State, t: State, dst: Ptr, src: Ptr, j: nat, v: T.Value, rest: T.Value)
    requires PairDone(s, t, dst, src, j, v)
    requires rest.Compound? && Shows(s.cells, s.kids, src, rest)
    ensures rest.kids != []
    ensures Shows(t.cells, t.kids, src, T.Compound(rest.kids[1..], rest.join))
  {
    PairRoots(s, t, dst, src, j, v);
    assert ShowsAll(s.cells, s.kids, s.kids[src], rest.kids);
    hide PairDone;
    forall i | 0 < i < |rest.kids|
      ensures ShowsNode(t.cells, t.kids, s.kids[src][i], rest.kids[i])
    {
      OtherSourceShows(s, t, dst, src, j, v, rest.kids, i);
    }
    hide *;
    ShowsTail(t.cells, t.kids, src, s.kids[src], rest.kids, rest.join);
  }

  lemma ShowsTail(cells: Cells, kids: Kids, n: Ptr, s: seq<Ptr>, ks: seq<T.Node>, join: bool)
    requires n in cells && cells[n].data == Members(join) && n in kids
    requires |s| == |ks| && ks != [] && kids[n] == s[1..]
    requires forall i :: 0 < i < |ks| ==> ShowsNode(cells, kids, s[i], ks[i])
    ensures Shows(cells, kids, n, T.Compound(ks[1..], join))
  {
    forall i | 0 <= i < |ks| - 1
      ensures ShowsNode(cells, kids, kids[n][i], ks[1..][i])
    {
      assert ShowsNode(cells, kids, s[i + 1], ks[i + 1]);
    }
  }

  lemma OtherSourceShows(s: State, t: State, dst: Ptr, src: Ptr, j: nat, v: T.Value, ks: seq<T.Node>, i: nat)
    requires PairDone(s, t, dst, src, j, v) && 0 < i < |ks| && ShowsAll(s.cells, s.kids, s.kids[src], ks)
    ensures ShowsNode(t.cells, t.kids, s.kids[src][i], ks[i])
  {
    var c := s.kids[src][i];
    assert ShowsNode(s.cells, s.kids, c, ks[i]);
    OtherSourceKept(s, t, dst, src, j, v, i);
    hide ShowsAll, PairDone;
    ShowsFrame(s.cells, s.kids, s.rank, t.cells, t.kids, c, ks[i].value);
  }

  lemma OtherSourceKept(s: State, t: State, dst: Ptr, src: Ptr, j: nat, v: T.Value, i: nat)
    requires PairDone(s, t, dst, src, j, v) && 0 < i < |s.kids[src]|
    ensures var c := s.kids[src][i];
            && c in s.cells && c in t.cells && t.cells[c].id == s.cells[c].id
            && SameBelow(s.cells, s.kids, s.rank, t.cells, t.kids, c) && Unmoved(s, t, c)
  {
    hide Merged, SameBelow, Unmoved, Zone, Under, Rings, AllSiblingIds, Up, Compounds, Allocated;
    var c, dn, sn := s.kids[src][i], s.kids[dst][j], s.kids[src][0];
    assert c in s.kids[src] && dn in s.kids[dst] && sn in s.kids[src];
    RingOf(s.links, s.kids, src);
    assert c != sn;
    SiblingsApart(s.cells, s.rank, c, sn);
    MembersFit(s, dst, src, dn, c);
    ApartKept(s, t, dn, sn, c, v);
  }

  /** Seen from the start of the loop, the step stays in the zone. */
  lemma PairOutside(a: State, s: State, t: State, dst: Ptr, src: Ptr, acc: T.Value, rest: T.Value, j: nat, v: T.Value)
    requires Fit(a, dst, src) && Amid(a, s, dst, src, acc, rest) && PairDone(s, t, dst, src, j, v)
    ensures Outside(a, t, Zone(a, dst, src), a.kids)
  {
    var dn, sn := s.kids[dst][j], s.kids[src][0];
    assert dn in s.kids[dst] && sn in s.kids[src];
    PairElsewhere(s, t, dst, src, j, v);
    assert Outside(a, s, Zone(a, dst, src), a.kids);
    hide PairDone, Outside;
    AmidFit(a, s, dst, src, acc, rest);
    MembersFit(s, dst, src, dn, sn);
    SourceInZone(s, dst, src);
    OutsideTwice(a, s, t, Zone(a, dst, src), Zone(s, dn, sn), Unlisted(s.cells, s.kids, sn));
  }

  lemma PairElsewhere(s: State, t: State, dst: Ptr, src: Ptr, j: nat, v: T.Value)
    requires PairDone(s, t, dst, src, j, v)
    ensures var dn, sn := s.kids[dst][j], s.kids[src][0];
            var kids := Unlisted(s.cells, s.kids, sn);
            && Outside(s, t, Zone(s, dn, sn), kids)
            && forall m | m != src :: (m in kids <==> m in s.kids) && (m in kids ==> kids[m] == s.kids[m])
  {
    var sn := s.kids[src][0];
    assert sn in s.kids[src] && s.cells[sn].parent == Some(src);
  }

  lemma OutsideTwice(a: State, s: State, t: State, zone: set<Ptr>, inner: set<Ptr>, kids: Kids)
    requires Outside(a, s, zone, a.kids) && Outside(s, t, inner, kids)
    requires forall m | m in s.cells && m !in zone ::
               m !in inner && (m in kids <==> m in s.kids) && (m in kids ==> kids[m] == s.kids[m])
    ensures Outside(a, t, zone, a.kids)
  {
  }

  lemma SourceInZone(s: State, dst: Ptr, src: Ptr)
    requires Fit(s, dst, src)
    ensures dst in Zone(s, dst, src) && src in Zone(s, dst, src)
  {
    assert Under(s.cells, s.rank, src, src) && Under(s.cells, s.rank, dst, dst);
  }

  /** Every node of the zone that is left is below one of the roots. */
  lemma PairZone(a: State, s: State, t: State, dst: Ptr, src: Ptr, acc: T.Value, rest: T.Value, j: nat, v: T.Value,
                 m: Ptr)
    requires Fit(a, dst, src) && Amid(a, s, dst, src, acc, rest) && PairDone(s, t, dst, src, j, v)
    requires m in t.cells && m in Zone(a, dst, src) && m != dst
    ensures Under(t.cells, t.rank, m, dst) || Under(t.cells, t.rank, m, src)
  {
    var dn, sn := s.kids[dst][j], s.kids[src][0];
    assert dn in s.kids[dst] && sn in s.kids[src];
    AmidFit(a, s, dst, src, acc, rest);
    MembersFit(s, dst, src, dn, sn);
    assert t.cells[dn].parent == Some(dst);
    MemberUnder(t.cells, t.rank, dn, dst);
    if m in Zone(s, dn, sn) {
      if m != dn {
        UnderTrans(t.cells, t.rank, m, dn, dst);
      }
    } else {
      ZoneClosed(s, t, dn, sn, Unlisted(s.cells, s.kids, sn));
      OutsideUnder(s.cells, s.rank, t.cells, t.rank, Zone(s, dn, sn), m, dst);
      OutsideUnder(s.cells, s.rank, t.cells, t.rank, Zone(s, dn, sn), m, src);
    }
  }

  /** One round of the loop with a partner. */
  lemma PairStep(a: State, s: State, t: State, dst: Ptr, src: Ptr, acc: T.Value, rest: T.Value, j: nat, v: T.Value)
    requires Fit(a, dst, src) && Amid(a, s, dst, src, acc, rest) && PairDone(s, t, dst, src, j, v)
    ensures j < |acc.kids| && rest.kids != []
    ensures Amid(a, t, dst, src, T.Compound(acc.kids[j := T.Node(acc.kids[j].id, v)], acc.join),
                 T.Compound(rest.kids[1..], rest.join))
    ensures src in t.kids && t.kids[src] == s.kids[src][1..]
  {
    PairRoots(s, t, dst, src, j, v);
    PairShowsDst(s, t, dst, src, j, v, acc);
    PairShowsSrc(s, t, dst, src, j, v, rest);
    PairOutside(a, s, t, dst, src, acc, rest, j, v);
    forall m | m in t.cells && m in Zone(a, dst, src) && m != dst
      ensures Under(t.cells, t.rank, m, dst) || Under(t.cells, t.rank, m, src)
    {
      PairZone(a, s, t, dst, src, acc, rest, j, v, m);
    }
  }

  // ----- one member moved

  /** The first member of src has gone to the end of dst, under the given id. */
  ghost predicate MoveDone(s: State, t: State, dst: Ptr, src: Ptr, id: string) {
    && Fit(s, dst, src) && dst in s.kids && src in s.kids && 0 < |s.kids[src]| && Good(t)
    && var sn := s.kids[src][0];
    && sn in s.cells
    && t.cells == s.cells[sn := s.cells[sn].(id := Some(id), parent := Some(dst))]
    && t.kids == s.kids[src := s.kids[src][1..]][dst := s.kids[dst] + [sn]]
  }

  lemma MoveRoots(s: State, t: State, dst: Ptr, src: Ptr, id: string)
    requires MoveDone(s, t, dst, src, id)
    ensures var sn := s.kids[src][0];
            && sn != dst && sn != src && dst != src && s.cells[sn].parent == Some(src)
            && sn in s.kids[src] && Under(s.cells, s.rank, sn, src) && !Under(s.cells, s.rank, src, sn)
  {
    var sn := s.kids[src][0];
    assert sn in s.kids[src];
    MemberUnder(s.cells, s.rank, sn, src);
    assert Under(s.cells, s.rank, src, src) && Under(s.cells, s.rank, sn, sn);
  }

  /** The trees of the members are what they were. */
  lemma MoveKept(s: State, t: State, dst: Ptr, src: Ptr, id: string, r: Ptr, c: Ptr)
    requires MoveDone(s, t, dst, src, id) && (r == dst || r == src) && c in s.kids[r]
    ensures c in s.cells && SameBelow(s.cells, s.kids, s.rank, t.cells, t.kids, c) && Unmoved(s, t, c)
  {
    MoveApart(s, t, dst, src, id, r, c);
    MoveRoots(s, t, dst, src, id);
    hide Under, Rings, Up, AllSiblingIds, Compounds, Allocated;
  }

  lemma MoveApart(s: State, t: State, dst: Ptr, src: Ptr, id: string, r: Ptr, c: Ptr)
    requires MoveDone(s, t, dst, src, id) && (r == dst || r == src) && c in s.kids[r]
    ensures c in s.cells
    ensures forall m | m in Below(s.cells, s.rank, c) :: m != dst && m != src && (m != c ==> m != s.kids[src][0])
  {
    MoveRoots(s, t, dst, src, id);
    var sn := s.kids[src][0];
    MemberUnder(s.cells, s.rank, c, r);
    RootNotBelow(s, dst, src, r, c);
    assert Under(s.cells, s.rank, sn, c) == (sn == c || Under(s.cells, s.rank, src, c));
  }

  lemma RootNotBelow(s: State, dst: Ptr, src: Ptr, r: Ptr, c: Ptr)
    requires Fit(s, dst, src) && (r == dst || r == src) && c in s.cells && s.cells[c].parent == Some(r)
    ensures !Under(s.cells, s.rank, dst, c) && !Under(s.cells, s.rank, src, c)
  {
    MemberUnder(s.cells, s.rank, c, r);
    var other := if r == dst then src else dst;
    if Under(s.cells, s.rank, other, c) {
      UnderTrans(s.cells, s.rank, other, c, r);
    }
  }

  lemma MoveShowsMember(s: State, t: State, dst: Ptr, src: Ptr, id: string, r: Ptr, ks: seq<T.Node>, i: nat)
    requires MoveDone(s, t, dst, src, id) && (r == dst || r == src) && i < |ks|
    requires ShowsAll(s.cells, s.kids, s.kids[r], ks)
    ensures s.kids[r][i] in t.cells && Shows(t.cells, t.kids, s.kids[r][i], ks[i].value)
    ensures s.kids[r][i] != s.kids[src][0] ==> ShowsNode(t.cells, t.kids, s.kids[r][i], ks[i])
  {
    var c := s.kids[r][i];
    assert c in s.kids[r];
    assert ShowsNode(s.cells, s.kids, c, ks[i]);
    MoveKept(s, t, dst, src, id, r, c);
    ShowsFrame(s.cells, s.kids, s.rank, t.cells, t.kids, c, ks[i].value);
  }

  lemma MoveShowsDst(s: State, t: State, dst: Ptr, src: Ptr, id: string, acc: T.Value, rest: T.Value)
    requires MoveDone(s, t, dst, src, id) && acc.Compound? && rest.Compound?
    requires Shows(s.cells, s.kids, dst, acc) && Shows(s.cells, s.kids, src, rest)
    ensures rest.kids != []
    ensures Shows(t.cells, t.kids, dst, T.Compound(acc.kids + [T.Node(id, rest.kids[0].value)], acc.join))
  {
    MoveRoots(s, t, dst, src, id);
    var sn, ks := s.kids[src][0], acc.kids + [T.Node(id, rest.kids[0].value)];
    assert ShowsAll(s.cells, s.kids, s.kids[dst], acc.kids) && ShowsAll(s.cells, s.kids, s.kids[src], rest.kids);
    forall i | 0 <= i < |ks|
      ensures ShowsNode(t.cells, t.kids, t.kids[dst][i], ks[i])
    {
      if i < |acc.kids| {
        assert s.kids[dst][i] in s.kids[dst];
        assert s.cells[s.kids[dst][i]].parent == Some(dst);
        MoveShowsMember(s, t, dst, src, id, dst, acc.kids, i);
      } else {
        MoveShowsMember(s, t, dst, src, id, src, rest.kids, 0);
      }
    }
  }

  lemma MoveShowsSrc(s: State, t: State, dst: Ptr, src: Ptr, id: string, rest: T.Value)
    requires MoveDone(s, t, dst, src, id) && rest.Compound? && Shows(s.cells, s.kids, src, rest)
    ensures rest.kids != []
    ensures Shows(t.cells, t.kids, src, T.Compound(rest.kids[1..], rest.join))
  {
    MoveRoots(s, t, dst, src, id);
    RingOf(s.links, s.kids, src);
    assert ShowsAll(s.cells, s.kids, s.kids[src], rest.kids);
    forall i | 0 < i < |rest.kids|
      ensures ShowsNode(t.cells, t.kids, s.kids[src][i], rest.kids[i])
    {
      MoveShowsMember(s, t, dst, src, id, src, rest.kids, i);
    }
    assert t.cells[src].data == Members(rest.join) && t.kids[src] == s.kids[src][1..];
    hide *;
    ShowsTail(t.cells, t.kids, src, s.kids[src], rest.kids, rest.join);
  }

  lemma MoveZone(s: State, t: State, dst: Ptr, src: Ptr, id: string, m: Ptr)
    requires MoveDone(s, t, dst, src, id) && m in s.cells
    requires Under(s.cells, s.rank, m, dst) || Under(s.cells, s.rank, m, src)
    ensures Under(t.cells, t.rank, m, dst) || Under(t.cells, t.rank, m, src)
  {
    MoveRoots(s, t, dst, src, id);
    var sn := s.kids[src][0];
    MemberUnder(t.cells, t.rank, sn, dst);
    var zone := Below(s.cells, s.rank, sn);
    if m in zone {
      if m != sn {
        InsideUnder(s.cells, s.rank, t.cells, t.rank, sn, sn, m);
        UnderTrans(t.cells, t.rank, m, sn, dst);
      }
    } else {
      assert sn in zone;
      assert SameOutside(s.cells, t.cells, zone);
      OutsideUnder(s.cells, s.rank, t.cells, t.rank, zone, m, dst);
      OutsideUnder(s.cells, s.rank, t.cells, t.rank, zone, m, src);
    }
  }

  /** One round of the loop without a partner. */
  lemma MoveStep(a: State, s: State, t: State, dst: Ptr, src: Ptr, acc: T.Value, rest: T.Value, id: string)
    requires Fit(a, dst, src) && Amid(a, s, dst, src, acc, rest) && MoveDone(s, t, dst, src, id)
    ensures rest.kids != []
    ensures Amid(a, t, dst, src, T.Compound(acc.kids + [T.Node(id, rest.kids[0].value)], acc.join),
                 T.Compound(rest.kids[1..], rest.join))
  {
    MoveRoots(s, t, dst, src, id);
    MoveShowsDst(s, t, dst, src, id, acc, rest);
    MoveShowsSrc(s, t, dst, src, id, rest);
    MoveOutside(a, s, t, dst, src, acc, rest, id);
    forall m | m in t.cells && m in Zone(a, dst, src) && m != dst
      ensures Under(t.cells, t.rank, m, dst) || Under(t.cells, t.rank, m, src)
    {
      MoveZone(s, t, dst, src, id, m);
    }
  }

  lemma MoveOutside(a: State, s: State, t: State, dst: Ptr, src: Ptr, acc: T.Value, rest: T.Value, id: string)
    requires Fit(a, dst, src) && Amid(a, s, dst, src, acc, rest) && MoveDone(s, t, dst, src, id)
    ensures Outside(a, t, Zone(a, dst, src), a.kids)
  {
    MoveRoots(s, t, dst, src, id);
    AmidFit(a, s, dst, src, acc, rest);
    SourceInZone(s, dst, src);
    assert s.kids[src][0] in Zone(s, dst, src);
  }

  // ----- the end of the loop

  lemma EmptyAlone(s: State, n: Ptr)
    requires Good(s) && n in s.cells && n in s.kids && s.kids[n] == []
    ensures Below(s.cells, s.rank, n) == {n}
  {
    BelowAll(s.cells, s.kids, s.rank, n);
    BelowNone(s.cells, s.rank, s.kids[n]);
    assert n in Below(s.cells, s.rank, n);
  }

  /** src, which has no members any more, has been deleted. */
  ghost predicate DeleteDone(s: State, t: State, src: Ptr) {
    && Good(s) && src in s.cells && src in s.kids && s.kids[src] == [] && Good(t)
    && t.cells == s.cells - {src} && t.kids == Unlisted(s.cells, s.kids, src) - {src}
  }

  lemma FinishZone(a: State, s: State, t: State, dst: Ptr, src: Ptr, acc: T.Value, rest: T.Value, m: Ptr)
    requires Fit(a, dst, src) && Amid(a, s, dst, src, acc, rest) && DeleteDone(s, t, src)
    requires m in t.cells && m in Zone(a, dst, src) && m != dst
    ensures Under(t.cells, t.rank, m, dst)
  {
    EmptyAlone(s, src);
    assert m !in Below(s.cells, s.rank, src);
    UnderFreed(s, t, src, m, dst);
  }

  lemma {:induction false} UnderFreed(s: State, t: State, gone: Ptr, m: Ptr, n: Ptr)
    requires Good(s) && Good(t) && t.cells == s.cells - {gone} && m in t.cells
    ensures Under(t.cells, t.rank, m, n) == Under(s.cells, s.rank, m, n)
    decreases s.rank[m]
  {
    if m != n && s.cells[m].parent.Some? {
      UnderFreed(s, t, gone, s.cells[m].parent.value, n);
    }
  }

  lemma FinishShows(s: State, t: State, dst: Ptr, src: Ptr, acc: T.Value)
    requires Fit(s, dst, src) && DeleteDone(s, t, src) && Shows(s.cells, s.kids, dst, acc)
    ensures Shows(t.cells, t.kids, dst, acc)
  {
    Apart(s.cells, s.rank, dst, src);
    EmptyAlone(s, src);
    forall m | m in Below(s.cells, s.rank, dst)
      ensures m in t.cells && t.cells[m] == s.cells[m]
      ensures m in s.kids ==> m in t.kids && t.kids[m] == s.kids[m]
    {
      assert m != src && s.cells[src].parent != Some(m);
    }
    ShowsFrame(s.cells, s.kids, s.rank, t.cells, t.kids, dst, acc);
  }

  lemma FinishOutside(a: State, s: State, t: State, dst: Ptr, src: Ptr)
    requires Fit(a, dst, src) && Outside(a, s, Zone(a, dst, src), a.kids) && DeleteDone(s, t, src)
    requires s.cells[src] == a.cells[src]
    ensures Outside(a, t, Zone(a, dst, src), Unlisted(a.cells, a.kids, src))
  {
    SourceInZone(a, dst, src);
    if a.cells[src].parent.Some? {
      RootParentOutside(a, dst, src, src);
    }
  }

  lemma FinishCounts(a: State, s: State, t: State, src: Ptr)
    requires NoneLost(a, s) && DeleteDone(s, t, src) && s.cells[src].refcount == 0
    ensures NoneLost(a, t)
  {
    hide IsForest;
  }

  lemma Finish(a: State, s: State, t: State, dst: Ptr, src: Ptr, acc: T.Value, rest: T.Value)
    requires Fit(a, dst, src) && Amid(a, s, dst, src, acc, rest) && DeleteDone(s, t, src) && a.cells[src].refcount == 0
    ensures Merged(a, t, dst, src, acc) && t.cells[dst].id == a.cells[dst].id
  {
    FinishCounts(a, s, t, src);
    hide NoneLost;
    AmidFit(a, s, dst, src, acc, rest);
    assert dst != src by { SourceInZone(a, dst, src); }
    FinishShows(s, t, dst, src, acc);
    FinishOutside(a, s, t, dst, src);
    forall m | m in t.cells && m in Zone(a, dst, src) && m != dst
      ensures Under(t.cells, t.rank, m, dst)
    {
      FinishZone(a, s, t, dst, src, acc, rest, m);
    }
  }

  // ----- substitution is a merge

  /** src has been substituted for dst. */
  ghost predicate SubstDone(s: State, t: State, dst: Ptr, src: Ptr) {
    && Fit(s, dst, src) && RingSound(s.cells, s.kids, dst, src) && Good(t)
    && var gone := Below(s.cells, s.rank, dst) - {dst};
    && dst in s.cells - gone && src in s.cells - gone
    && t.cells == SubstCells(s.cells - gone, Emptied(s.kids, gone, dst), dst, src)
    && t.kids == SubstKids(s.cells - gone, Emptied(s.kids, gone, dst), dst, src)
  }

  /** The memory after a substitution, node by node. */
  lemma SubstFacts(s: State, t: State, dst: Ptr, src: Ptr, m: Ptr)
    requires SubstDone(s, t, dst, src) && m in s.cells && m != dst && m != src
    ensures m in t.cells <==> m !in Below(s.cells, s.rank, dst)
    ensures m in t.cells ==>
              t.cells[m] == if s.cells[m].parent == Some(src) then s.cells[m].(parent := Some(dst)) else s.cells[m]
    ensures m in t.cells && m in Unlisted(s.cells, s.kids, src) ==> m in t.kids && t.kids[m] == Unlisted(s.cells, s.kids, src)[m]
    ensures m in t.kids ==> m in s.kids
  {
    var gone := Below(s.cells, s.rank, dst) - {dst};
    assert src in s.kids ==> (m in s.kids[src] <==> s.cells[m].parent == Some(src));
    assert src !in s.kids ==> s.cells[m].parent != Some(src);
    if s.cells[src].parent.Some? {
      NotParentBelow(s, dst, src);
    }
  }

  lemma NotParentBelow(s: State, dst: Ptr, src: Ptr)
    requires Fit(s, dst, src) && s.cells[src].parent.Some?
    ensures s.cells[src].parent.value !in Below(s.cells, s.rank, dst)
    ensures s.cells[src].parent.value in s.kids
  {
    RootParentOutside(s, dst, src, src);
  }

  lemma SubstRoots(s: State, t: State, dst: Ptr, src: Ptr)
    requires SubstDone(s, t, dst, src)
    ensures dst in t.cells && src !in t.cells && dst != src
    ensures t.cells[dst] == Cell(s.cells[src].id, s.cells[src].data, s.cells[dst].refcount, s.cells[dst].parent)
    ensures src in s.kids ==> dst in t.kids && t.kids[dst] == s.kids[src]
    ensures forall m | m in t.cells :: m in s.cells
  {
    SourceInZone(s, dst, src);
    assert src in s.kids ==> dst in s.kids;
    Apart(s.cells, s.rank, dst, src);
  }

  lemma SubstKept(s: State, t: State, dst: Ptr, src: Ptr, c: Ptr)
    requires SubstDone(s, t, dst, src) && src in s.kids && c in s.kids[src]
    ensures c in s.cells && c in t.cells && t.cells[c].id == s.cells[c].id
    ensures SameBelow(s.cells, s.kids, s.rank, t.cells, t.kids, c)
  {
    MemberUnder(s.cells, s.rank, c, src);
    assert c in Below(s.cells, s.rank, c);
    Apart(s.cells, s.rank, dst, src);
    forall m | m in Below(s.cells, s.rank, c)
      ensures m in t.cells && t.cells[m].data == s.cells[m].data && t.cells[m].id == s.cells[m].id
      ensures m in s.kids ==> m in t.kids && t.kids[m] == s.kids[m]
    {
      UnderTrans(s.cells, s.rank, m, c, src);
      assert m in Below(s.cells, s.rank, src) && m != src;
      assert s.cells[src].parent != Some(m) by { SourceParent(s, src, m); }
      SubstFacts(s, t, dst, src, m);
    }
  }

  lemma SourceParent(s: State, src: Ptr, m: Ptr)
    requires Good(s) && src in s.cells && m in Below(s.cells, s.rank, src)
    ensures s.cells[src].parent != Some(m)
  {
    if s.cells[src].parent.Some? {
      ParentOutside(s.cells, s.rank, src);
    }
  }

  lemma SubstShows(s: State, t: State, dst: Ptr, src: Ptr, v: T.Value)
    requires SubstDone(s, t, dst, src) && Shows(s.cells, s.kids, src, v)
    ensures Shows(t.cells, t.kids, dst, v)
  {
    SubstRoots(s, t, dst, src);
    if v.Compound? {
      assert ShowsAll(s.cells, s.kids, s.kids[src], v.kids);
      forall i | 0 <= i < |v.kids|
        ensures ShowsNode(t.cells, t.kids, s.kids[src][i], v.kids[i])
      {
        var c := s.kids[src][i];
        assert c in s.kids[src] && ShowsNode(s.cells, s.kids, c, v.kids[i]);
        SubstKept(s, t, dst, src, c);
        ShowsFrame(s.cells, s.kids, s.rank, t.cells, t.kids, c, v.kids[i].value);
      }
    }
  }

  lemma SubstZone(s: State, t: State, dst: Ptr, src: Ptr, m: Ptr)
    requires SubstDone(s, t, dst, src) && m in t.cells && m in Zone(s, dst, src) && m != dst
    ensures Under(t.cells, t.rank, m, dst)
  {
    SubstRoots(s, t, dst, src);
    SubstFacts(s, t, dst, src, m);
    Apart(s.cells, s.rank, dst, src);
    forall x | x in Below(s.cells, s.rank, src) && x != src
      ensures x in t.cells && t.cells[x].parent == if s.cells[x].parent == Some(src) then Some(dst) else s.cells[x].parent
    {
      assert x != dst by { SourceInZone(s, dst, src); }
      SubstFacts(s, t, dst, src, x);
    }
    InsideUnder(s.cells, s.rank, t.cells, t.rank, src, dst, m);
  }

  lemma SubstOutside(s: State, t: State, dst: Ptr, src: Ptr)
    requires SubstDone(s, t, dst, src)
    ensures Outside(s, t, Zone(s, dst, src), Unlisted(s.cells, s.kids, src))
  {
    SourceInZone(s, dst, src);
    forall m | m in s.cells && m !in Zone(s, dst, src)
      ensures m in t.cells && t.cells[m] == s.cells[m]
      ensures m in t.kids <==> m in Unlisted(s.cells, s.kids, src)
      ensures m in t.kids ==> t.kids[m] == Unlisted(s.cells, s.kids, src)[m]
    {
      SubstFacts(s, t, dst, src, m);
      assert s.cells[m].parent != Some(src);
    }
  }

  lemma SubstCounts(s: State, t: State, dst: Ptr, src: Ptr)
    requires SubstDone(s, t, dst, src) && ZeroBelow(s, dst) && s.cells[src].refcount == 0
    ensures NoneLost(s, t)
  {
    SubstRoots(s, t, dst, src);
    forall m | m in s.cells && m != dst && m != src
      ensures m in t.cells <==> m !in Below(s.cells, s.rank, dst)
      ensures m in t.cells ==> t.cells[m].refcount == s.cells[m].refcount
    {
      SubstFacts(s, t, dst, src, m);
    }
  }

  /** A substitution merges in the sense that the source wins. */
  lemma SubstMerges(s: State, t: State, dst: Ptr, src: Ptr, v: T.Value)
    requires SubstDone(s, t, dst, src) && Shows(s.cells, s.kids, src, v)
    requires ZeroBelow(s, dst) && s.cells[src].refcount == 0
    ensures Merged(s, t, dst, src, v) && t.cells[dst].id == s.cells[src].id
  {
    SubstCounts(s, t, dst, src);
    hide NoneLost;
    SubstRoots(s, t, dst, src);
    SubstShows(s, t, dst, src, v);
    SubstOutside(s, t, dst, src);
    forall m | m in t.cells && m in Zone(s, dst, src) && m != dst
      ensures Under(t.cells, t.rank, m, dst)
    {
      SubstZone(s, t, dst, src, m);
    }
  }

  // ----- where no ring breaks

  /** Substitution keeps the ring. */
  predicate Replaceable(d: T.Value, s: T.Value) {
    s.Compound? ==> d.Compound? && s.kids != []
  }

  /** No substitution on the way breaks a ring: the condition of the caller, path by path. */
  predicate Mergeable(d: T.Value, s: T.Value, override: bool)
    decreases s, 1
  {
    if !d.Compound? || !s.Compound? then Replaceable(d, s)
    else (T.IsArray(d.kids) && T.IsArray(s.kids)) || PairsOk(d.kids, s.kids, override)
  }

  predicate PairsOk(ds: seq<T.Node>, ss: seq<T.Node>, override: bool)
    decreases ss, 0
  {
    forall k, l | k in ds && l in ss && k.id == l.id :: PairOk(k.value, l.value, override)
  }

  predicate PairOk(d: T.Value, s: T.Value, override: bool)
    decreases s, 2
  {
    if override || !s.Compound? || !d.Compound? then Replaceable(d, s) else Mergeable(d, s, false)
  }

  lemma PairsOkStep(ds: seq<T.Node>, ss: seq<T.Node>, override: bool)
    requires PairsOk(ds, ss, override) && ss != [] && T.DistinctIds(ss)
    ensures PairsOk(M.MergeChild(ds, ss[0], override), ss[1..], override)
  {
    var merged := M.MergeChild(ds, ss[0], override);
    forall k, l | k in merged && l in ss[1..] && k.id == l.id
      ensures PairOk(k.value, l.value, override)
    {
      var j :| 0 <= j < |ss[1..]| && ss[1..][j] == l;
      assert ss[j + 1] == l && l.id != ss[0].id;
      assert k in ds && l in ss;
    }
  }

  // ----- which nodes may not be held

  /** Substituting src for dst frees src and what is below dst. */
  ghost predicate SparesBoth(s: State, dst: Ptr, src: Ptr)
    requires Good(s)
  {
    src in s.cells && s.cells[src].refcount == 0 && ZeroBelow(s, dst)
  }

  /** Nobody holds a node that merging src into dst frees: d and v are the trees that they stand for. */
  ghost predicate Spares(s: State, dst: Ptr, src: Ptr, d: T.Value, v: T.Value, override: bool)
    requires Good(s)
    decreases v, 1
  {
    if !d.Compound? || !v.Compound? then SparesBoth(s, dst, src)
    else
      && src in s.cells && s.cells[src].refcount == 0 && dst in s.kids && src in s.kids
      && (|| (T.IsArray(d.kids) && T.IsArray(v.kids))
          || SparesPairs(s, s.kids[dst], s.kids[src], d.kids, v.kids, override))
  }

  ghost predicate SparesPairs(s: State, dns: seq<Ptr>, sns: seq<Ptr>, ds: seq<T.Node>, vs: seq<T.Node>, override: bool)
    requires Good(s)
    decreases vs, 0
  {
    forall i, j | 0 <= i < |ds| && i < |dns| && 0 <= j < |vs| && j < |sns| && ds[i].id == vs[j].id ::
      SparesPair(s, dns[i], sns[j], ds[i].value, vs[j].value, override)
  }

  ghost predicate SparesPair(s: State, dn: Ptr, sn: Ptr, d: T.Value, v: T.Value, override: bool)
    requires Good(s)
    decreases v, 2
  {
    if override || !v.Compound? || !d.Compound? then SparesBoth(s, dn, sn) else Spares(s, dn, sn, d, v, false)
  }

  lemma {:induction false} NothingNewBelow(s: State, t: State, c: Ptr, m: Ptr)
    requires Good(s) && Good(t) && c in s.cells && Unmoved(s, t, c) && m in Below(t.cells, t.rank, c)
    ensures m in Below(s.cells, s.rank, c)
    decreases t.rank[m]
  {
    hide Rings, AllSiblingIds, Allocated;
    assert c in Below(s.cells, s.rank, c);
    if m != c {
      var q := t.cells[m].parent.value;
      NothingNewBelow(s, t, c, q);
      assert m in t.kids[q] && q in s.kids;
      MemberUnder(s.cells, s.rank, m, q);
      UnderTrans(s.cells, s.rank, m, q, c);
    }
  }

  lemma UnmovedMember(s: State, t: State, n: Ptr, c: Ptr)
    requires Good(s) && n in s.kids && c in s.kids[n] && Unmoved(s, t, n)
    ensures c in s.cells && Unmoved(s, t, c)
  {
    MemberUnder(s.cells, s.rank, c, n);
    forall m | m in Below(s.cells, s.rank, c)
      ensures m in Below(s.cells, s.rank, n)
    {
      UnderTrans(s.cells, s.rank, m, c, n);
    }
  }

  lemma SparesBothFrame(s: State, t: State, dst: Ptr, src: Ptr)
    requires Good(s) && Good(t) && dst in s.cells && SparesBoth(s, dst, src) && Unmoved(s, t, dst) && Unmoved(s, t, src)
    ensures SparesBoth(t, dst, src)
  {
    assert src in Below(s.cells, s.rank, src);
    forall m | m in Below(t.cells, t.rank, dst) && m != dst
      ensures t.cells[m].refcount == 0
    {
      NothingNewBelow(s, t, dst, m);
    }
  }

  lemma {:induction false} SparesFrame(s: State, t: State, dst: Ptr, src: Ptr, d: T.Value, v: T.Value, override: bool)
    requires Good(s) && Good(t) && dst in s.cells && src in s.cells && Unmoved(s, t, dst) && Unmoved(s, t, src)
    requires Spares(s, dst, src, d, v, override)
    ensures Spares(t, dst, src, d, v, override)
    decreases v, 1
  {
    hide Unmoved, T.IsArray, Under, IsForest;
    if !d.Compound? || !v.Compound? {
      SparesBothFrame(s, t, dst, src);
    } else {
      UnmovedRoot(s, t, dst);
      UnmovedRoot(s, t, src);
      if !(T.IsArray(d.kids) && T.IsArray(v.kids)) {
        forall i, j | 0 <= i < |d.kids| && i < |s.kids[dst]| && 0 <= j < |v.kids| && j < |s.kids[src]|
                      && d.kids[i].id == v.kids[j].id
          ensures SparesPair(t, s.kids[dst][i], s.kids[src][j], d.kids[i].value, v.kids[j].value, override)
        {
          UnmovedMember(s, t, dst, s.kids[dst][i]);
          UnmovedMember(s, t, src, s.kids[src][j]);
          SparesPairFrame(s, t, s.kids[dst][i], s.kids[src][j], d.kids[i].value, v.kids[j].value, override);
        }
      }
    }
  }

  lemma UnmovedRoot(s: State, t: State, n: Ptr)
    requires Good(s) && n in s.cells && Unmoved(s, t, n)
    ensures n in t.cells && t.cells[n].refcount == s.cells[n].refcount
    ensures (n in s.kids ==> n in t.kids && t.kids[n] == s.kids[n])
  {
    assert n in Below(s.cells, s.rank, n);
  }

  lemma SparesPairFrame(s: State, t: State, dn: Ptr, sn: Ptr, d: T.Value, v: T.Value, override: bool)
    requires Good(s) && Good(t) && dn in s.cells && sn in s.cells && Unmoved(s, t, dn) && Unmoved(s, t, sn)
    requires SparesPair(s, dn, sn, d, v, override)
    ensures SparesPair(t, dn, sn, d, v, override)
    decreases v, 2
  {
    if override || !v.Compound? || !d.Compound? {
      SparesBothFrame(s, t, dn, sn);
    } else {
      SparesFrame(s, t, dn, sn, d, v, false);
    }
  }

  // ----- the loops

  ghost function Now(h: Heap): State
    reads h, h.mem
  {
    State(h.mem.links, h.cells, h.kids, h.rank)
  }

  lemma SiblingIdFits(s: State, dst: Ptr, src: Ptr)
    requires Good(s) && dst in s.cells && src in s.cells && s.cells[dst].id == s.cells[src].id
    ensures IdFits(s.cells, dst, src)
  {
    if s.cells[dst].parent.Some? {
      assert s.cells[dst].id.Some?;
      forall m | m in s.cells && s.cells[m].parent == s.cells[dst].parent && m != dst
        ensures s.cells[m].id != s.cells[src].id
      {
        SiblingsDiffer(s.links, s.cells, s.kids, s.rank, dst, m);
      }
    }
  }

  lemma ShowsRingSound(s: State, dst: Ptr, src: Ptr, d: T.Value, v: T.Value)
    requires dst in s.cells && src in s.cells && Shows(s.cells, s.kids, dst, d) && Shows(s.cells, s.kids, src, v)
    requires Replaceable(d, v)
    ensures RingSound(s.cells, s.kids, dst, src)
  {
  }

  method SubstituteNodes(h: Heap, dst: Ptr, src: Ptr, ghost d: T.Value, ghost s: T.Value)
    requires h.Valid() && Fit(Now(h), dst, src) && IdFits(h.cells, dst, src) && Replaceable(d, s)
    requires Shows(h.cells, h.kids, dst, d) && Shows(h.cells, h.kids, src, s)
    requires ZeroBelow(Now(h), dst) && h.cells[src].refcount == 0
    modifies h, h.mem
    ensures h.Valid() && Merged(old(Now(h)), Now(h), dst, src, s) && h.cells[dst].id == old(h.cells[src].id)
  {
    ghost var a := Now(h);
    ShowsRingSound(a, dst, src, d, s);
    assert dst != src by { SourceInZone(a, dst, src); }
    h.Substitute(dst, src);
    SubstMerges(a, Now(h), dst, src, s);
  }

  /** snd_config_is_array: the number of items, or 0. */
  method CountItems(h: Heap, n: Ptr, ghost v: T.Value) returns (count: nat)
    requires h.Valid() && Shows(h.cells, h.kids, n, v) && v.Compound?
    ensures count == if T.IsArray(v.kids) then |v.kids| else 0
  {
    ghost var s := h.kids[n];
    RingOf(h.mem.links, h.kids, n);
    assert Linked(h.mem.links, n, s, 0);
    var pos := h.mem.links[Fields(n)].next;
    count := 0;
    while pos != Fields(n)
      invariant 0 <= count <= |s| && pos == At(n, s, count + 1)
      invariant forall i :: 0 <= i < count ==> T.IsArrayItem(v.kids[i].id, i)
      decreases |s| - count
    {
      assert ShowsNode(h.cells, h.kids, s[count], v.kids[count]);
      if !T.IsArrayItem(h.cells[pos.p].id.value, count) {
        return 0;
      }
      assert Linked(h.mem.links, n, s, count + 1);
      pos := h.mem.links[pos].next;
      count := count + 1;
    }
  }

  /** The first member of src leaves it and becomes the last member of dst, under a new id if one is given. */
  method MoveToEnd(h: Heap, dst: Ptr, src: Ptr, sn: Ptr, id: Option<string>)
    requires h.Valid() && Fit(Now(h), dst, src) && dst in h.kids && src in h.kids
    requires 0 < |h.kids[src]| && sn == h.kids[src][0] && sn in h.cells && h.cells[sn].id.Some?
    requires IdFree(h.cells, h.kids[dst], if id.Some? then id else h.cells[sn].id)
    modifies h, h.mem
    ensures h.Valid()
    ensures MoveDone(old(Now(h)), Now(h), dst, src, if id.Some? then id.value else old(h.cells[sn].id.value))
  {
    hide Under, Zone, Rings, Up, AllSiblingIds, Compounds, Allocated, Down, Ranked;
    ghost var a, s, t := Now(h), h.kids[src], h.kids[dst];
    MoveReady(a, dst, src);
    h.Remove(sn, 0);
    if id.Some? {
      var e := h.SetId(sn, id);
      ErrnoCases(e);
    }
    hide Fit;
    MovedApart(a.cells, h.cells, h.rank, dst, sn);
    IdStaysFree(a.cells, h.cells, t, sn, h.cells[sn].id);
    assert Drop(s, 0) == s[1..];
    hide IsForest, IdFree;
    h.LinkLast(dst, sn);
    assert h.cells == a.cells[sn := a.cells[sn].(id := if id.Some? then id else a.cells[sn].id, parent := Some(dst))];
    assert h.kids == a.kids[src := s[1..]][dst := t + [sn]];
  }

  lemma IdStaysFree(cells: Cells, cells': Cells, s: seq<Ptr>, sn: Ptr, id: Option<string>)
    requires IdFree(cells, s, id) && sn !in s
    requires (forall m | m in cells' && m != sn :: m in cells && cells'[m].id == cells[m].id)
    ensures IdFree(cells', s, id)
  {
  }

  lemma MoveReady(a: State, dst: Ptr, src: Ptr)
    requires Fit(a, dst, src) && dst in a.kids && src in a.kids && 0 < |a.kids[src]|
    ensures var sn := a.kids[src][0];
            && sn in a.cells && a.cells[sn].parent == Some(src) && dst != src && dst != sn && src != sn
            && !Under(a.cells, a.rank, dst, sn) && sn !in a.kids[dst]
  {
    hide Zone, Rings, Up, AllSiblingIds, Compounds, Allocated;
    var sn := a.kids[src][0];
    assert sn in a.kids[src];
    assert Under(a.cells, a.rank, dst, dst) && Under(a.cells, a.rank, sn, sn);
    hide Under;
    MemberUnder(a.cells, a.rank, sn, src);
    RootNotBelow(a, dst, src, src, sn);
  }

  lemma MovedApart(cells: Cells, cells': Cells, rank: Ranks, dst: Ptr, sn: Ptr)
    requires Ranked(cells, rank) && Ranked(cells', rank) && dst in cells && sn in cells && !Under(cells, rank, dst, sn)
    requires cells'.Keys == cells.Keys
    requires forall m | m in cells :: cells'[m].parent == Orphan(cells, sn)[m].parent
    ensures !Under(cells', rank, dst, sn)
  {
    UnderOrphan(cells, rank, dst, sn);
    UnderFrame(Orphan(cells, sn), cells', rank, dst, sn);
  }

  /** The source node goes once it has no members left. */
  method DeleteSource(h: Heap, src: Ptr)
    requires h.Valid() && src in h.cells && src in h.kids && h.kids[src] == [] && h.cells[src].refcount == 0
    modifies h, h.mem
    ensures h.Valid() && DeleteDone(old(Now(h)), Now(h), src)
  {
    ghost var a, k := Now(h), 0;
    EmptyAlone(a, src);
    if h.cells[src].parent.Some? {
      ghost var s := h.kids[h.cells[src].parent.value];
      assert src in s;
      k :| 0 <= k < |s| && s[k] == src;
      RingOf(h.mem.links, h.kids, h.cells[src].parent.value);
      DropIsMinus(s, k);
    }
    h.Delete(src, k);
  }

  lemma AbsentIsFree(s: State, n: Ptr, v: T.Value, id: string)
    requires v.Compound? && Shows(s.cells, s.kids, n, v) && T.Find(v.kids, id).None?
    ensures IdFree(s.cells, s.kids[n], Some(id))
  {
    forall i | 0 <= i < |s.kids[n]|
      ensures s.kids[n][i] in s.cells && s.cells[s.kids[n][i]].id != Some(id)
    {
      assert ShowsNode(s.cells, s.kids, s.kids[n][i], v.kids[i]);
    }
  }

  lemma FoundIs(s: State, n: Ptr, v: T.Value, c: Ptr, id: string) returns (j: nat)
    requires Good(s) && v.Compound? && Shows(s.cells, s.kids, n, v) && c in s.kids[n] && c in s.cells
    requires s.cells[c].id == Some(id)
    ensures j < |s.kids[n]| && j < |v.kids| && s.kids[n][j] == c && T.Find(v.kids, id) == Some(j)
    ensures ShowsNode(s.cells, s.kids, c, v.kids[j])
  {
    j :| 0 <= j < |s.kids[n]| && s.kids[n][j] == c;
    ShowsFind(s.links, s.cells, s.kids, s.rank, n, v, j);
    assert ShowsNode(s.cells, s.kids, s.kids[n][j], v.kids[j]);
  }

  lemma NotFoundIs(s: State, n: Ptr, v: T.Value, id: string)
    requires Good(s) && v.Compound? && Shows(s.cells, s.kids, n, v)
    requires forall c | c in s.kids[n] :: c in s.cells && s.cells[c].id != Some(id)
    ensures T.Find(v.kids, id).None?
  {
    forall j | 0 <= j < |v.kids|
      ensures v.kids[j].id != id
    {
      assert ShowsNode(s.cells, s.kids, s.kids[n][j], v.kids[j]);
      assert s.kids[n][j] in s.kids[n];
    }
  }

  /** What a round of the loop does to the first member of src. */
  ghost predicate Absorbed(s: State, t: State, dst: Ptr, src: Ptr, acc: seq<T.Node>, k: T.Node, override: bool) {
    match T.Find(acc, k.id)
    case None => MoveDone(s, t, dst, src, k.id)
    case Some(j) => PairDone(s, t, dst, src, j, M.MergePair(acc[j].value, k.value, override))
  }

  lemma AbsorbStep(a: State, s: State, t: State, dst: Ptr, src: Ptr, acc: T.Value, rest: T.Value, override: bool)
    requires Fit(a, dst, src) && Amid(a, s, dst, src, acc, rest) && rest.kids != []
    requires Absorbed(s, t, dst, src, acc.kids, rest.kids[0], override)
    ensures Amid(a, t, dst, src, T.Compound(M.MergeChild(acc.kids, rest.kids[0], override), acc.join),
                 T.Compound(rest.kids[1..], rest.join))
    ensures src in s.kids && src in t.kids && s.kids[src] != [] && t.kids[src] == s.kids[src][1..]
  {
    assert acc.Compound? && rest.Compound?;
    hide Amid, PairDone;
    match T.Find(acc.kids, rest.kids[0].id)
    case None =>
      MoveStep(a, s, t, dst, src, acc, rest, rest.kids[0].id);
      MoveRoots(s, t, dst, src, rest.kids[0].id);
    case Some(j) =>
      PairStep(a, s, t, dst, src, acc, rest, j, M.MergePair(acc.kids[j].value, rest.kids[0].value, override));
      PairHasFirst(s, t, dst, src, j, M.MergePair(acc.kids[j].value, rest.kids[0].value, override));
  }

  lemma PairHasFirst(s: State, t: State, dst: Ptr, src: Ptr, j: nat, v: T.Value)
    requires PairDone(s, t, dst, src, j, v)
    ensures src in s.kids && s.kids[src] != []
  {
  }

  /** What is left to merge after a round is as it was. */
  lemma SparesStep(s: State, t: State, dst: Ptr, src: Ptr, acc: T.Value, rest: T.Value, override: bool)
    requires Fit(s, dst, src) && acc.Compound? && rest.Compound? && rest.kids != [] && T.DistinctIds(rest.kids)
    requires Shows(s.cells, s.kids, dst, acc) && Shows(s.cells, s.kids, src, rest)
    requires Absorbed(s, t, dst, src, acc.kids, rest.kids[0], override) && Good(t) && dst in t.kids && src in t.kids
    requires Good(s) && dst in s.kids && src in s.kids
    requires SparesPairs(s, s.kids[dst], s.kids[src], acc.kids, rest.kids, override)
    ensures SparesPairs(t, t.kids[dst], t.kids[src], M.MergeChild(acc.kids, rest.kids[0], override), rest.kids[1..],
                        override)
  {
    hide *;
    var merged, tail := M.MergeChild(acc.kids, rest.kids[0], override), rest.kids[1..];
    forall i, j | 0 <= i < |merged| && i < |t.kids[dst]| && 0 <= j < |tail| && j < |t.kids[src]|
                  && merged[i].id == tail[j].id
      ensures SparesPair(t, t.kids[dst][i], t.kids[src][j], merged[i].value, tail[j].value, override)
    {
      SparesLater(s, t, dst, src, acc, rest, override, i, j);
    }
    SparesAll(t, t.kids[dst], t.kids[src], merged, tail, override);
  }

  lemma SparesAll(s: State, dns: seq<Ptr>, sns: seq<Ptr>, ds: seq<T.Node>, vs: seq<T.Node>, override: bool)
    requires Good(s)
    requires forall i, j | 0 <= i < |ds| && i < |dns| && 0 <= j < |vs| && j < |sns| && ds[i].id == vs[j].id ::
               SparesPair(s, dns[i], sns[j], ds[i].value, vs[j].value, override)
    ensures SparesPairs(s, dns, sns, ds, vs, override)
  {
  }

  lemma SparesOne(s: State, dns: seq<Ptr>, sns: seq<Ptr>, ds: seq<T.Node>, vs: seq<T.Node>, override: bool, i: nat,
                  j: nat)
    requires Good(s) && SparesPairs(s, dns, sns, ds, vs, override)
    requires i < |ds| && i < |dns| && j < |vs| && j < |sns| && ds[i].id == vs[j].id
    ensures SparesPair(s, dns[i], sns[j], ds[i].value, vs[j].value, override)
  {
  }

  lemma SparesLater(s: State, t: State, dst: Ptr, src: Ptr, acc: T.Value, rest: T.Value, override: bool, i: nat, j: nat)
    requires Fit(s, dst, src) && acc.Compound? && rest.Compound? && rest.kids != [] && T.DistinctIds(rest.kids)
    requires Shows(s.cells, s.kids, dst, acc) && Shows(s.cells, s.kids, src, rest)
    requires Absorbed(s, t, dst, src, acc.kids, rest.kids[0], override) && Good(t) && dst in t.kids && src in t.kids
    requires Good(s) && dst in s.kids && src in s.kids
    requires SparesPairs(s, s.kids[dst], s.kids[src], acc.kids, rest.kids, override) && j + 1 < |rest.kids|
    requires var m := M.MergeChild(acc.kids, rest.kids[0], override); i < |m| && m[i].id == rest.kids[j + 1].id
    ensures i < |t.kids[dst]| && j < |t.kids[src]|
    ensures SparesPair(t, t.kids[dst][i], t.kids[src][j], M.MergeChild(acc.kids, rest.kids[0], override)[i].value,
                       rest.kids[j + 1].value, override)
  {
    hide *;
    RoundApart(acc.kids, rest.kids, override, i, j);
    RoundUnmoved(s, t, dst, src, acc, rest, override, i, j + 1);
    SparesOne(s, s.kids[dst], s.kids[src], acc.kids, rest.kids, override, i, j + 1);
    SparesPairFrame(s, t, s.kids[dst][i], s.kids[src][j + 1], acc.kids[i].value, rest.kids[j + 1].value, override);
  }

  /** A later source child has its partner among the children that the round has left alone. */
  lemma RoundApart(acc: seq<T.Node>, rest: seq<T.Node>, override: bool, i: nat, j: nat)
    requires rest != [] && T.DistinctIds(rest) && j + 1 < |rest|
    requires var m := M.MergeChild(acc, rest[0], override); i < |m| && m[i].id == rest[j + 1].id
    ensures i < |acc| && M.MergeChild(acc, rest[0], override)[i] == acc[i] && T.Find(acc, rest[0].id) != Some(i)
  {
    assert rest[0].id != rest[j + 1].id;
  }

  /** The round leaves the other members alone. */
  lemma RoundUnmoved(s: State, t: State, dst: Ptr, src: Ptr, acc: T.Value, rest: T.Value, override: bool, i: nat,
                     j: nat)
    requires Fit(s, dst, src) && acc.Compound? && rest.Compound? && rest.kids != []
    requires Shows(s.cells, s.kids, dst, acc) && Shows(s.cells, s.kids, src, rest)
    requires Absorbed(s, t, dst, src, acc.kids, rest.kids[0], override)
    requires i < |acc.kids| && 0 < j < |rest.kids| && T.Find(acc.kids, rest.kids[0].id) != Some(i)
    ensures i < |s.kids[dst]| && j < |s.kids[src]| && dst in t.kids && src in t.kids && t.kids[src] == s.kids[src][1..]
    ensures i < |t.kids[dst]| && t.kids[dst][i] == s.kids[dst][i]
    ensures s.kids[dst][i] in s.cells && s.kids[src][j] in s.cells
    ensures Unmoved(s, t, s.kids[dst][i]) && Unmoved(s, t, s.kids[src][j])
  {
    hide Unmoved, Zone, Under, IsForest, SameBelow, M.MergePair;
    assert ShowsAll(s.cells, s.kids, s.kids[dst], acc.kids) && ShowsAll(s.cells, s.kids, s.kids[src], rest.kids);
    hide Shows, ShowsAll;
    match T.Find(acc.kids, rest.kids[0].id)
    case None =>
      assert s.kids[dst][i] in s.kids[dst] && s.kids[src][j] in s.kids[src];
      MoveKept(s, t, dst, src, rest.kids[0].id, dst, s.kids[dst][i]);
      MoveKept(s, t, dst, src, rest.kids[0].id, src, s.kids[src][j]);
      MoveRoots(s, t, dst, src, rest.kids[0].id);
    case Some(k) =>
      var v := M.MergePair(acc.kids[k].value, rest.kids[0].value, override);
      OtherMemberKept(s, t, dst, src, k, v, i);
      OtherSourceKept(s, t, dst, src, k, v, j);
      PairRoots(s, t, dst, src, k, v);
  }

  /** A source member and its partner: substituted, or merged one level down. */
  method MergeNodePair(h: Heap, dn: Ptr, sn: Ptr, override: bool, ghost d: T.Value, ghost s: T.Value)
    requires h.Valid() && Fit(Now(h), dn, sn) && h.cells[dn].id == h.cells[sn].id && PairOk(d, s, override)
    requires Shows(h.cells, h.kids, dn, d) && Shows(h.cells, h.kids, sn, s)
    requires SparesPair(Now(h), dn, sn, d, s, override)
    modifies h, h.mem
    ensures h.Valid() && Merged(old(Now(h)), Now(h), dn, sn, M.MergePair(d, s, override))
    ensures h.cells[dn].id == old(h.cells[dn].id)
    decreases s, 3
  {
    SiblingIdFits(Now(h), dn, sn);
    if override || h.cells[sn].data.Scalar? || h.cells[dn].data.Scalar? {
      SubstituteNodes(h, dn, sn, d, s);
    } else {
      MergeNodes(h, dn, sn, false, d, s);
    }
  }

  lemma ShowsKind(s: State, n: Ptr, v: T.Value)
    requires Shows(s.cells, s.kids, n, v)
    ensures v.Compound? <==> s.cells[n].data.Members?
  {
  }

  /** snd_config_merge: afterwards dst stands for the merge of what dst and src stood for. */
  method MergeNodes(h: Heap, dst: Ptr, src: Ptr, override: bool, ghost d: T.Value, ghost s: T.Value)
    requires h.Valid() && Fit(Now(h), dst, src) && Mergeable(d, s, override)
    requires Shows(h.cells, h.kids, dst, d) && Shows(h.cells, h.kids, src, s)
    requires !d.Compound? || !s.Compound? ==> IdFits(h.cells, dst, src)
    requires Spares(Now(h), dst, src, d, s, override)
    modifies h, h.mem
    ensures h.Valid() && Merged(old(Now(h)), Now(h), dst, src, M.Merge(d, s, override))
    ensures h.cells[dst].id == if d.Compound? && s.Compound? then old(h.cells[dst].id) else old(h.cells[src].id)
    decreases s, 2
  {
    hide IsForest, Shows, Merged, PairsOk, T.IsArrayItem;
    ShowsKind(Now(h), dst, d);
    ShowsKind(Now(h), src, s);
    if h.cells[dst].data.Scalar? || h.cells[src].data.Scalar? {
      SubstituteNodes(h, dst, src, d, s);
      return;
    }
    var count := CountItems(h, dst, d);
    var more := 0;
    if count > 0 {
      more := CountItems(h, src, s);
    }
    if more > 0 {
      MergeItems(h, dst, src, count, d, s);
    } else {
      MergeMembers(h, dst, src, override, d, s);
    }
  }

  /** One round of the loop over the members of src. */
  method Absorb(h: Heap, dst: Ptr, src: Ptr, sn: Ptr, override: bool, ghost acc: T.Value, ghost rest: T.Value)
    requires h.Valid() && Fit(Now(h), dst, src) && acc.Compound? && rest.Compound? && rest.kids != []
    requires Shows(h.cells, h.kids, dst, acc) && Shows(h.cells, h.kids, src, rest)
    requires PairsOk(acc.kids, rest.kids, override) && h.kids[src] != [] && sn == h.kids[src][0]
    requires SparesPairs(Now(h), h.kids[dst], h.kids[src], acc.kids, rest.kids, override)
    modifies h, h.mem
    ensures h.Valid() && Absorbed(old(Now(h)), Now(h), dst, src, acc.kids, rest.kids[0], override)
    decreases rest.kids[0], 0
  {
    ghost var a := Now(h);
    assert ShowsNode(h.cells, h.kids, h.kids[src][0], rest.kids[0]);
    assert sn in h.kids[src];
    var found := h.FindChild(dst, h.cells[sn].id.value, None);
    if found.Some? {
      var dn := found.value;
      ghost var j := FoundIs(a, dst, acc, dn, rest.kids[0].id);
      MembersFit(a, dst, src, dn, sn);
      assert acc.kids[j] in acc.kids && rest.kids[0] in rest.kids;
      MergeNodePair(h, dn, sn, override, acc.kids[j].value, rest.kids[0].value);
    } else {
      NotFoundIs(a, dst, acc, rest.kids[0].id);
      AbsentIsFree(a, dst, acc, rest.kids[0].id);
      MoveToEnd(h, dst, src, sn, None);
    }
  }

  method MergeMembers(h: Heap, dst: Ptr, src: Ptr, override: bool, ghost d: T.Value, ghost s: T.Value)
    requires h.Valid() && Fit(Now(h), dst, src) && d.Compound? && s.Compound? && PairsOk(d.kids, s.kids, override)
    requires Shows(h.cells, h.kids, dst, d) && Shows(h.cells, h.kids, src, s)
    requires h.cells[src].refcount == 0 && SparesPairs(Now(h), h.kids[dst], h.kids[src], d.kids, s.kids, override)
    modifies h, h.mem
    ensures h.Valid()
    ensures Merged(old(Now(h)), Now(h), dst, src, T.Compound(M.MergeKids(d.kids, s.kids, override), d.join))
    ensures h.cells[dst].id == old(h.cells[dst].id)
    decreases s, 1
  {
    hide Zone, Under, IsForest, Shows, M.MergeChild, M.MergeKids, PairsOk, Absorbed, Fit, Amid, Merged, DeleteDone,
         SparesPairs;
    ghost var a := Now(h);
    ghost var acc, i := d.kids, 0;
    AmidStart(a, dst, src, d, s);
    AmidReady(a, a, dst, src, d, s);
    var pos := h.mem.links[Fields(src)].next;
    while pos != Fields(src)
      invariant h.Valid() && src in h.kids && pos == At(src, h.kids[src], 1)
      invariant i <= |s.kids| && Amid(a, Now(h), dst, src, T.Compound(acc, d.join), T.Compound(s.kids[i..], s.join))
      invariant PairsOk(acc, s.kids[i..], override)
      invariant dst in h.kids && SparesPairs(Now(h), h.kids[dst], h.kids[src], acc, s.kids[i..], override)
      invariant M.MergeKids(acc, s.kids[i..], override) == M.MergeKids(d.kids, s.kids, override)
      decreases |s.kids| - i
    {
      ghost var b, now, rest := Now(h), T.Compound(acc, d.join), T.Compound(s.kids[i..], s.join);
      AmidReady(a, b, dst, src, now, rest);
      var sn := pos.p;
      var snext := h.mem.links[pos].next;
      Absorb(h, dst, src, sn, override, now, rest);
      AbsorbStep(a, b, Now(h), dst, src, now, rest, override);
      AmidReady(a, Now(h), dst, src, T.Compound(M.MergeChild(acc, rest.kids[0], override), d.join),
                T.Compound(rest.kids[1..], s.join));
      SparesStep(b, Now(h), dst, src, now, rest, override);
      PairsOkStep(acc, rest.kids, override);
      MergeKidsStep(acc, rest.kids, override);
      acc, i := M.MergeChild(acc, s.kids[i], override), i + 1;
      assert rest.kids[1..] == s.kids[i..];
      pos := snext;
    }
    ghost var b, now, rest := Now(h), T.Compound(acc, d.join), T.Compound(s.kids[i..], s.join);
    AmidReady(a, b, dst, src, now, rest);
    NothingMerged(acc, override);
    DeleteSource(h, src);
    Finish(a, b, Now(h), dst, src, now, rest);
  }

  lemma MergeKidsStep(acc: seq<T.Node>, rest: seq<T.Node>, override: bool)
    requires rest != []
    ensures M.MergeKids(acc, rest, override) == M.MergeKids(M.MergeChild(acc, rest[0], override), rest[1..], override)
  {
  }

  lemma NothingMerged(acc: seq<T.Node>, override: bool)
    ensures M.MergeKids(acc, [], override) == acc
  {
  }

  /** What each round finds. */
  lemma AmidReady(a: State, b: State, dst: Ptr, src: Ptr, acc: T.Value, rest: T.Value)
    requires Fit(a, dst, src) && Amid(a, b, dst, src, acc, rest)
    ensures Good(b) && Fit(b, dst, src) && acc.Compound? && rest.Compound?
    ensures Shows(b.cells, b.kids, dst, acc) && Shows(b.cells, b.kids, src, rest)
    ensures src in b.cells && src in a.cells && b.cells[src].refcount == a.cells[src].refcount
    ensures dst in b.kids && src in b.kids && |b.kids[src]| == |rest.kids| && T.DistinctIds(rest.kids)
    ensures Fields(src) in b.links && b.links[Fields(src)].next == At(src, b.kids[src], 1)
    ensures b.kids[src] != [] ==>
              var first := Entry(b.kids[src][0]);
              At(src, b.kids[src], 1) == first && first in b.links && b.links[first].next == At(src, b.kids[src][1..], 1)
  {
    AmidFit(a, b, dst, src, acc, rest);
    FirstMember(b, src, rest);
  }

  /** Where the loop starts, and where it goes on from the first member. */
  lemma FirstMember(s: State, n: Ptr, v: T.Value)
    requires Good(s) && v.Compound? && Shows(s.cells, s.kids, n, v)
    ensures n in s.kids && |s.kids[n]| == |v.kids| && T.DistinctIds(v.kids)
    ensures Fields(n) in s.links && s.links[Fields(n)].next == At(n, s.kids[n], 1)
    ensures s.kids[n] != [] ==>
              var first := Entry(s.kids[n][0]);
              At(n, s.kids[n], 1) == first && first in s.links && s.links[first].next == At(n, s.kids[n][1..], 1)
  {
    ShowsDistinct(s.links, s.cells, s.kids, s.rank, n, v);
    RingOf(s.links, s.kids, n);
    assert Linked(s.links, n, s.kids[n], 0);
    if s.kids[n] != [] {
      assert Linked(s.links, n, s.kids[n], 1);
    }
  }

  // ----- arrays

  /** The children of an array followed by items that are numbered on. */
  ghost predicate ItemsFrom(ks: seq<T.Node>, n: nat) {
    && n <= |ks|
    && (forall i :: 0 <= i < n ==> T.IsArrayItem(ks[i].id, i))
    && (forall i :: n <= i < |ks| ==> ks[i].id == Decimal(i))
  }

  /** The next index is no id yet. */
  lemma NextItemFree(ks: seq<T.Node>, n: nat)
    requires ItemsFrom(ks, n)
    ensures T.Find(ks, Decimal(|ks|)).None?
  {
    forall i | 0 <= i < |ks|
      ensures ks[i].id != Decimal(|ks|)
    {
      if ks[i].id == Decimal(|ks|) {
        if i < n {
          DecimalReads(|ks|, i);
        } else {
          DecimalInjective(|ks|, i);
        }
      }
    }
  }

  lemma RenumberStep(ks: seq<T.Node>, s: seq<T.Node>, n: nat)
    requires s != []
    ensures ks + M.Renumber(s, n) == ks + [T.Node(Decimal(n), s[0].value)] + M.Renumber(s[1..], n + 1)
  {
  }

  lemma ItemsStart(ks: seq<T.Node>)
    requires T.IsArray(ks)
    ensures ItemsFrom(ks, |ks|)
  {
  }

  lemma ItemsGrow(ks: seq<T.Node>, n: nat, v: T.Value)
    requires ItemsFrom(ks, n)
    ensures ItemsFrom(ks + [T.Node(Decimal(|ks|), v)], n)
  {
    hide Decimal, T.IsArrayItem;
    var more := ks + [T.Node(Decimal(|ks|), v)];
    forall i | n <= i < |more|
      ensures more[i].id == Decimal(i)
    {
      if i < |ks| {
        assert more[i] == ks[i];
      }
    }
    forall i | 0 <= i < n
      ensures T.IsArrayItem(more[i].id, i)
    {
      assert more[i] == ks[i];
    }
  }

  lemma NothingRenumbered(ks: seq<T.Node>, idx: nat)
    ensures ks + M.Renumber([], idx) == ks
  {
  }

  /** One round of the loop: the first item of src becomes the last of dst, under its index there. */
  method AppendItem(h: Heap, dst: Ptr, src: Ptr, sn: Ptr, index: nat, ghost acc: T.Value, ghost rest: T.Value,
                    ghost n: nat)
    requires h.Valid() && Fit(Now(h), dst, src) && acc.Compound? && rest.Compound? && rest.kids != []
    requires Shows(h.cells, h.kids, dst, acc) && Shows(h.cells, h.kids, src, rest)
    requires ItemsFrom(acc.kids, n) && index == |acc.kids| && h.kids[src] != [] && sn == h.kids[src][0]
    modifies h, h.mem
    ensures h.Valid() && MoveDone(old(Now(h)), Now(h), dst, src, Decimal(index))
  {
    hide Zone, Under, IsForest, MoveDone, T.IsArrayItem, Decimal, ItemsFrom;
    ghost var b := Now(h);
    MoveReady(b, dst, src);
    FirstId(b, src, rest);
    NextItemFree(acc.kids, n);
    AbsentIsFree(b, dst, acc, Decimal(index));
    MoveToEnd(h, dst, src, sn, Some(Decimal(index)));
  }

  /** _snd_config_array_merge */
  method MergeItems(h: Heap, dst: Ptr, src: Ptr, count: nat, ghost d: T.Value, ghost s: T.Value)
    requires h.Valid() && Fit(Now(h), dst, src) && d.Compound? && s.Compound? && T.IsArray(d.kids) && count == |d.kids|
    requires Shows(h.cells, h.kids, dst, d) && Shows(h.cells, h.kids, src, s) && h.cells[src].refcount == 0
    modifies h, h.mem
    ensures h.Valid()
    ensures Merged(old(Now(h)), Now(h), dst, src, T.Compound(d.kids + M.Renumber(s.kids, |d.kids|), d.join))
    ensures h.cells[dst].id == old(h.cells[dst].id)
  {
    hide Zone, Under, IsForest, Shows, MoveDone, Fit, Amid, Merged, DeleteDone, T.IsArrayItem, Decimal, M.Renumber,
         ItemsFrom;
    ItemsStart(d.kids);
    ghost var a := Now(h);
    ghost var acc, i := d.kids, 0;
    AmidStart(a, dst, src, d, s);
    AmidReady(a, a, dst, src, d, s);
    var index := count;
    var pos := h.mem.links[Fields(src)].next;
    while pos != Fields(src)
      invariant h.Valid() && src in h.kids && pos == At(src, h.kids[src], 1)
      invariant i <= |s.kids| && Amid(a, Now(h), dst, src, T.Compound(acc, d.join), T.Compound(s.kids[i..], s.join))
      invariant index == |acc| && ItemsFrom(acc, |d.kids|)
      invariant acc + M.Renumber(s.kids[i..], index) == d.kids + M.Renumber(s.kids, |d.kids|)
      decreases |s.kids| - i
    {
      ghost var b, now, rest := Now(h), T.Compound(acc, d.join), T.Compound(s.kids[i..], s.join);
      AmidReady(a, b, dst, src, now, rest);
      var sn := pos.p;
      var snext := h.mem.links[pos].next;
      AppendItem(h, dst, src, sn, index, now, rest, |d.kids|);
      MoveStep(a, b, Now(h), dst, src, now, rest, Decimal(index));
      MovedTail(b, Now(h), dst, src, Decimal(index));
      RenumberStep(acc, rest.kids, index);
      ItemsGrow(acc, |d.kids|, s.kids[i].value);
      acc, i, index := acc + [T.Node(Decimal(index), s.kids[i].value)], i + 1, index + 1;
      assert rest.kids[1..] == s.kids[i..];
      pos := snext;
    }
    ghost var b, now, rest := Now(h), T.Compound(acc, d.join), T.Compound(s.kids[i..], s.join);
    AmidReady(a, b, dst, src, now, rest);
    NothingRenumbered(acc, index);
    DeleteSource(h, src);
    Finish(a, b, Now(h), dst, src, now, rest);
  }

  lemma FirstId(s: State, n: Ptr, v: T.Value)
    requires v.Compound? && Shows(s.cells, s.kids, n, v) && v.kids != []
    ensures s.kids[n] != [] && s.kids[n][0] in s.cells && s.cells[s.kids[n][0]].id.Some?
  {
    assert ShowsNode(s.cells, s.kids, s.kids[n][0], v.kids[0]);
  }

  lemma MovedTail(s: State, t: State, dst: Ptr, src: Ptr, id: string)
    requires MoveDone(s, t, dst, src, id)
    ensures src in s.kids && s.kids[src] != [] && src in t.kids && t.kids[src] == s.kids[src][1..]
  {
    MoveRoots(s, t, dst, src, id);
  }
}
