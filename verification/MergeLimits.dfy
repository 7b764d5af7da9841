/** Where merging nodes breaks a ring: exactly where a pair that the loops reach is substituted unsoundly. */
module MergeLimits {
  import opened Numbers
  import T = Tree
  import P = Parser
  import L = Loading
  import M = Merging
  import opened Ring
  import opened Forest
  import opened Substitution
  import opened ConfigHeap
  import opened HeapTree
  import opened HeapMerging

  // ----- the pairs that are substituted

  /** Merging s into d substitutes y for x. */
  ghost predicate Substitutes(d: T.Value, s: T.Value, override: bool, x: T.Value, y: T.Value)
    decreases s, 1
  {
    if !d.Compound? || !s.Compound? then x == d && y == s
    else
      && !(T.IsArray(d.kids) && T.IsArray(s.kids))
      && exists k, l :: k in d.kids && l in s.kids && k.id == l.id && PairSubstitutes(k.value, l.value, override, x, y)
  }

  ghost predicate PairSubstitutes(d: T.Value, s: T.Value, override: bool, x: T.Value, y: T.Value)
    decreases s, 2
  {
    if override || !s.Compound? || !d.Compound? then x == d && y == s else Substitutes(d, s, false, x, y)
  }

  /** The condition on two trees holds exactly when every substitution on the way is sound. */
  lemma {:induction false} MergeableIff(d: T.Value, s: T.Value, override: bool)
    ensures Mergeable(d, s, override) <==> forall x, y | Substitutes(d, s, override, x, y) :: Replaceable(x, y)
    decreases s, 1
  {
    if !d.Compound? || !s.Compound? {
      assert Substitutes(d, s, override, d, s);
    } else if !(T.IsArray(d.kids) && T.IsArray(s.kids)) {
      hide T.IsArray;
      forall k, l | k in d.kids && l in s.kids && k.id == l.id
        ensures PairOk(k.value, l.value, override) <==>
                  forall x, y | PairSubstitutes(k.value, l.value, override, x, y) :: Replaceable(x, y)
      {
        PairOkIff(k.value, l.value, override);
      }
      ByPairs(d, s, override);
    }
  }

  lemma PairOkIff(d: T.Value, s: T.Value, override: bool)
    ensures PairOk(d, s, override) <==> forall x, y | PairSubstitutes(d, s, override, x, y) :: Replaceable(x, y)
    decreases s, 2
  {
    if override || !s.Compound? || !d.Compound? {
      assert PairSubstitutes(d, s, override, d, s);
    } else {
      MergeableIff(d, s, false);
      hide Mergeable, Substitutes;
      if !Mergeable(d, s, false) {
        var x, y :| Substitutes(d, s, false, x, y) && !Replaceable(x, y);
        assert PairSubstitutes(d, s, override, x, y);
      }
      forall x, y | PairSubstitutes(d, s, override, x, y)
        ensures Substitutes(d, s, false, x, y)
      {
      }
    }
  }

  lemma ByPairs(d: T.Value, s: T.Value, override: bool)
    requires d.Compound? && s.Compound? && !(T.IsArray(d.kids) && T.IsArray(s.kids))
    requires forall k, l | k in d.kids && l in s.kids && k.id == l.id ::
               PairOk(k.value, l.value, override) <==>
                 forall x, y | PairSubstitutes(k.value, l.value, override, x, y) :: Replaceable(x, y)
    ensures Mergeable(d, s, override) <==> forall x, y | Substitutes(d, s, override, x, y) :: Replaceable(x, y)
  {
    hide PairOk, PairSubstitutes, T.IsArray;
    if PairsOk(d.kids, s.kids, override) {
      forall x, y | Substitutes(d, s, override, x, y)
        ensures Replaceable(x, y)
      {
        var k, l :| k in d.kids && l in s.kids && k.id == l.id && PairSubstitutes(k.value, l.value, override, x, y);
        assert PairOk(k.value, l.value, override);
      }
    } else {
      var k, l :| k in d.kids && l in s.kids && k.id == l.id && !PairOk(k.value, l.value, override);
      var x, y :| PairSubstitutes(k.value, l.value, override, x, y) && !Replaceable(x, y);
      assert Substitutes(d, s, override, x, y);
    }
  }

  // ----- and the loop does reach these pairs

  lemma OtherChildKept(dst: seq<T.Node>, k: T.Node, override: bool, id: string)
    requires k.id != id
    ensures L.Lookup(M.MergeChild(dst, k, override), id) == L.Lookup(dst, id)
  {
    hide M.MergePair;
    var m := M.MergeChild(dst, k, override);
    if T.Find(dst, id).Some? {
      var i := T.Find(dst, id).value;
      assert m[i] == dst[i] && forall j :: 0 <= j < i ==> m[j].id == dst[j].id;
    } else {
      assert forall j :: 0 <= j < |m| ==> m[j].id != id;
    }
  }

  /** What the loop finds for a source child is the child that was there before the loop. */
  lemma {:induction false} PartnerIsOriginal(dst: seq<T.Node>, src: seq<T.Node>, override: bool, id: string)
    requires id !in P.Ids(src)
    ensures L.Lookup(M.MergeKids(dst, src, override), id) == L.Lookup(dst, id)
    decreases src
  {
    if src != [] {
      hide M.MergeChild, L.Lookup;
      assert src[0] in src && P.Ids(src[1..]) <= P.Ids(src);
      PartnerIsOriginal(M.MergeChild(dst, src[0], override), src[1..], override, id);
      OtherChildKept(dst, src[0], override, id);
    }
  }

  /** In the round of the i-th source child, the loop's partner is the destination child with that id. */
  lemma RoundPartner(dst: seq<T.Node>, src: seq<T.Node>, override: bool, i: nat)
    requires T.DistinctIds(src) && i < |src|
    ensures L.Lookup(M.MergeKids(dst, src[..i], override), src[i].id) == L.Lookup(dst, src[i].id)
  {
    PartnerIsOriginal(dst, src[..i], override, src[i].id);
  }

  // ----- the nodes that are freed

  /** Merging src into dst frees m: a source node that has a partner, or what is below a node that is substituted. */
  ghost predicate Frees(s: State, dst: Ptr, src: Ptr, d: T.Value, v: T.Value, override: bool, m: Ptr)
    requires Good(s)
    decreases v, 1
  {
    || m == src
    || if !d.Compound? || !v.Compound? then m in Below(s.cells, s.rank, dst) && m != dst
       else
         && dst in s.kids && src in s.kids && !(T.IsArray(d.kids) && T.IsArray(v.kids))
         && exists i: nat, j: nat :: FreesPair(s, s.kids[dst], s.kids[src], d.kids, v.kids, i, j, override, m)
  }

  ghost predicate FreesPair(s: State, dns: seq<Ptr>, sns: seq<Ptr>, ds: seq<T.Node>, vs: seq<T.Node>, i: nat, j: nat,
                            override: bool, m: Ptr)
    requires Good(s)
    decreases vs, 0
  {
    && i < |ds| && i < |dns| && j < |vs| && j < |sns| && ds[i].id == vs[j].id
    && if override || !vs[j].value.Compound? || !ds[i].value.Compound? then
         m == sns[j] || (m in Below(s.cells, s.rank, dns[i]) && m != dns[i])
       else Frees(s, dns[i], sns[j], ds[i].value, vs[j].value, false, m)
  }

  ghost predicate Free(s: State, m: Ptr) {
    m in s.cells && s.cells[m].refcount == 0
  }

  /** What merging asks of the holders of references is that none holds a node that is freed. */
  lemma {:induction false} SparesIff(s: State, dst: Ptr, src: Ptr, d: T.Value, v: T.Value, override: bool)
    requires Good(s) && Shows(s.cells, s.kids, dst, d) && Shows(s.cells, s.kids, src, v)
    ensures Spares(s, dst, src, d, v, override) <==> forall m | Frees(s, dst, src, d, v, override, m) :: Free(s, m)
    decreases v
  {
    hide T.IsArray, Under, IsForest;
    assert Frees(s, dst, src, d, v, override, src);
    if !d.Compound? || !v.Compound? {
      BothIff(s, dst, src);
    } else if !(T.IsArray(d.kids) && T.IsArray(v.kids)) {
      var dns, sns := s.kids[dst], s.kids[src];
      forall i: nat, j: nat | i < |d.kids| && j < |v.kids| && d.kids[i].id == v.kids[j].id
        ensures SparesPair(s, dns[i], sns[j], d.kids[i].value, v.kids[j].value, override) <==>
                  forall m | FreesPair(s, dns, sns, d.kids, v.kids, i, j, override, m) :: Free(s, m)
      {
        assert ShowsNode(s.cells, s.kids, dns[i], d.kids[i]) && ShowsNode(s.cells, s.kids, sns[j], v.kids[j]);
        BothIff(s, dns[i], sns[j]);
        SparesIff(s, dns[i], sns[j], d.kids[i].value, v.kids[j].value, false);
      }
      SparesByPairs(s, dst, src, d, v, override);
    }
  }

  lemma BothIff(s: State, dst: Ptr, src: Ptr)
    requires Good(s)
    ensures SparesBoth(s, dst, src) <==>
              Free(s, src) && forall m | m in Below(s.cells, s.rank, dst) && m != dst :: Free(s, m)
  {
  }

  lemma SparesByPairs(s: State, dst: Ptr, src: Ptr, d: T.Value, v: T.Value, override: bool)
    requires Good(s) && d.Compound? && v.Compound? && !(T.IsArray(d.kids) && T.IsArray(v.kids))
    requires Shows(s.cells, s.kids, dst, d) && Shows(s.cells, s.kids, src, v)
    requires |s.kids[dst]| == |d.kids| && |s.kids[src]| == |v.kids|
    requires forall i: nat, j: nat | i < |d.kids| && j < |v.kids| && d.kids[i].id == v.kids[j].id ::
               SparesPair(s, s.kids[dst][i], s.kids[src][j], d.kids[i].value, v.kids[j].value, override) <==>
                 forall m | FreesPair(s, s.kids[dst], s.kids[src], d.kids, v.kids, i, j, override, m) :: Free(s, m)
    ensures Spares(s, dst, src, d, v, override) <==> forall m | Frees(s, dst, src, d, v, override, m) :: Free(s, m)
  {
    hide SparesPair, T.IsArray, IsForest, Under;
    var dns, sns := s.kids[dst], s.kids[src];
    if Spares(s, dst, src, d, v, override) {
      forall m | Frees(s, dst, src, d, v, override, m)
        ensures Free(s, m)
      {
        if m != src {
          var i, j := PairOf(s, dst, src, d, v, override, m);
          SparesOne(s, dns, sns, d.kids, v.kids, override, i, j);
        }
      }
    }
    if forall m | Frees(s, dst, src, d, v, override, m) :: Free(s, m) {
      assert Frees(s, dst, src, d, v, override, src);
      forall i, j | 0 <= i < |d.kids| && i < |dns| && 0 <= j < |v.kids| && j < |sns| && d.kids[i].id == v.kids[j].id
        ensures SparesPair(s, dns[i], sns[j], d.kids[i].value, v.kids[j].value, override)
      {
        forall m | FreesPair(s, dns, sns, d.kids, v.kids, i, j, override, m)
          ensures Free(s, m)
        {
          assert Frees(s, dst, src, d, v, override, m);
        }
      }
      SparesAll(s, dns, sns, d.kids, v.kids, override);
    }
  }

  lemma PairOf(s: State, dst: Ptr, src: Ptr, d: T.Value, v: T.Value, override: bool, m: Ptr) returns (i: nat, j: nat)
    requires Good(s) && d.Compound? && v.Compound? && m != src && Frees(s, dst, src, d, v, override, m)
    ensures dst in s.kids && src in s.kids && FreesPair(s, s.kids[dst], s.kids[src], d.kids, v.kids, i, j, override, m)
  {
    i, j :| FreesPair(s, s.kids[dst], s.kids[src], d.kids, v.kids, i, j, override, m);
  }

  /** A substitution does free these, and nothing else. */
  lemma SubstFrees(s: State, t: State, dst: Ptr, src: Ptr, m: Ptr)
    requires SubstDone(s, t, dst, src) && m in s.cells
    ensures m !in t.cells <==> m == src || (m in Below(s.cells, s.rank, dst) && m != dst)
  {
    SubstRoots(s, t, dst, src);
    if m != src && m != dst {
      SubstFacts(s, t, dst, src, m);
    }
  }

  // ----- a forest on which a ring breaks

  /** A scalar and a compound with its id that merging pairs: substituting leaves no forest. */
  lemma PairCorrupts(s: State, dst: Ptr, src: Ptr, dn: Ptr, sn: Ptr)
    requires Fit(s, dst, src) && dst in s.kids && src in s.kids && dn in s.kids[dst] && sn in s.kids[src]
    requires dn in s.cells && sn in s.cells && s.cells[dn].data.Scalar? && s.cells[sn].data.Members?
    ensures Ready(s.links, s.cells, s.kids, s.rank, dn, sn) && !RingSound(s.cells, s.kids, dn, sn)
    ensures forall kids', rank' ::
              !IsForest(SubstLinks(s.links, s.cells, s.kids, s.rank, dn, sn), SubstCells(s.cells, s.kids, dn, sn),
                        kids', rank')
  {
    MembersFit(s, dst, src, dn, sn);
    assert dn != sn by { SourceInZone(s, dn, sn); }
    assert dn !in s.kids;
    forall kids', rank'
      ensures !IsForest(SubstLinks(s.links, s.cells, s.kids, s.rank, dn, sn), SubstCells(s.cells, s.kids, dn, sn),
                        kids', rank')
    {
      SubstituteCorrupts(s.links, s.cells, s.kids, s.rank, dn, sn, kids', rank');
    }
  }

  /** The same for two compounds, of which the source has no members, once those of the destination are gone. */
  lemma EmptyCorrupts(s: State, dst: Ptr, src: Ptr, dn: Ptr, sn: Ptr)
    requires Fit(s, dst, src) && dst in s.kids && src in s.kids && dn in s.kids[dst] && sn in s.kids[src]
    requires dn in s.kids && s.kids[dn] == [] && sn in s.kids && s.kids[sn] == [] && dn in s.cells && sn in s.cells
    ensures Ready(s.links, s.cells, s.kids, s.rank, dn, sn) && !RingSound(s.cells, s.kids, dn, sn)
    ensures forall kids', rank' ::
              !IsForest(SubstLinks(s.links, s.cells, s.kids, s.rank, dn, sn), SubstCells(s.cells, s.kids, dn, sn),
                        kids', rank')
  {
    MembersFit(s, dst, src, dn, sn);
    assert dn != sn by { SourceInZone(s, dn, sn); }
    forall kids', rank'
      ensures !IsForest(SubstLinks(s.links, s.cells, s.kids, s.rank, dn, sn), SubstCells(s.cells, s.kids, dn, sn),
                        kids', rank')
    {
      SubstituteCorrupts(s.links, s.cells, s.kids, s.rank, dn, sn, kids', rank');
    }
  }

  lemma NewNode(s: State, n: Ptr, id: Option<string>, data: Data) returns (t: State)
    requires Good(s) && n !in s.cells
    ensures Good(t) && t.cells == s.cells[n := Cell(id, data, 0, None)]
    ensures t.kids == if data.Members? then s.kids[n := []] else s.kids
  {
    MakeKeeps(s.links, s.cells, s.kids, s.rank, n, id, data);
    var l := s.links[Entry(n) := Ends(Entry(n), Entry(n))];
    t := State(if data.Members? then l[Fields(n) := Ends(Fields(n), Fields(n))] else l,
               s.cells[n := Cell(id, data, 0, None)], if data.Members? then s.kids[n := []] else s.kids, s.rank[n := 0]);
  }

  lemma NewMember(s: State, p: Ptr, c: Ptr) returns (t: State)
    requires Good(s) && p in s.cells && p in s.kids && s.kids[p] == [] && s.cells[p].parent.None?
    requires c in s.cells && c != p && s.cells[c].parent.None? && s.cells[c].id.Some?
    ensures Good(t) && t.cells == Adopt(s.cells, c, p) && t.kids == s.kids[p := [c]]
  {
    assert !Under(s.cells, s.rank, p, c);
    AttachKeeps(s.links, s.cells, s.kids, s.rank, p, 0, c);
    t := State(Inserted(s.links, Entry(c), At(p, s.kids[p], 0), At(p, s.kids[p], 1)), Adopt(s.cells, c, p),
               s.kids[p := Insert(s.kids[p], 0, c)], Raised(s.cells, s.rank, c, p));
    assert Insert(s.kids[p], 0, c) == [c];
  }

  const Scalar1 := T.Compound([T.Node("a", T.Integer(1))], false)
  const Empty1 := T.Compound([T.Node("a", T.Compound([], false))], false)

  /** There is a forest with two trees whose merge breaks a ring: `a 1` and `a { }`. */
  lemma MergeCanCorrupt() returns (s: State)
    ensures Fit(s, 0, 2) && Shows(s.cells, s.kids, 0, Scalar1) && Shows(s.cells, s.kids, 2, Empty1)
    ensures !Mergeable(Scalar1, Empty1, false)
    ensures s.kids[0] == [1] && s.kids[2] == [3] && s.cells[1].id == s.cells[3].id
    ensures Ready(s.links, s.cells, s.kids, s.rank, 1, 3)
    ensures forall kids', rank' ::
              !IsForest(SubstLinks(s.links, s.cells, s.kids, s.rank, 1, 3), SubstCells(s.cells, s.kids, 1, 3), kids',
                        rank')
  {
    s := TwoTrees();
    TwoTreesFit(s);
    assert T.Node("a", T.Integer(1)) in Scalar1.kids && T.Node("a", T.Compound([], false)) in Empty1.kids;
    assert !PairOk(T.Integer(1), T.Compound([], false), false);
    NotAnArray("a");
    PairCorrupts(s, 0, 2, 1, 3);
  }

  lemma NotAnArray(id: string)
    requires id == "a"
    ensures !T.IsArrayItem(id, 0)
  {
    assert !IsDigit(id[0]);
  }

  lemma TwoTrees() returns (s: State)
    ensures Good(s)
    ensures s.cells == map[0 := Cell(None, Members(false), 0, None), 1 := Cell(Some("a"), Scalar(T.Integer(1)), 0, Some(0)),
                           2 := Cell(None, Members(false), 0, None), 3 := Cell(Some("a"), Members(false), 0, Some(2))]
    ensures s.kids == map[0 := [1], 2 := [3], 3 := []]
  {
    hide Good;
    s := State(map[], map[], map[], map[]);
    EmptyForest();
    s := NewNode(s, 0, None, Members(false));
    s := NewNode(s, 1, Some("a"), Scalar(T.Integer(1)));
    s := NewNode(s, 2, None, Members(false));
    s := NewNode(s, 3, Some("a"), Members(false));
    s := NewMember(s, 0, 1);
    s := NewMember(s, 2, 3);
  }

  lemma EmptyForest()
    ensures Good(State(map[], map[], map[], map[]))
  {
  }

  lemma TwoTreesFit(s: State)
    requires Good(s)
    requires s.cells == map[0 := Cell(None, Members(false), 0, None), 1 := Cell(Some("a"), Scalar(T.Integer(1)), 0, Some(0)),
                            2 := Cell(None, Members(false), 0, None), 3 := Cell(Some("a"), Members(false), 0, Some(2))]
    requires s.kids == map[0 := [1], 2 := [3], 3 := []]
    ensures Fit(s, 0, 2) && Shows(s.cells, s.kids, 0, Scalar1) && Shows(s.cells, s.kids, 2, Empty1)
  {
    assert ShowsNode(s.cells, s.kids, 1, T.Node("a", T.Integer(1)));
    assert ShowsAll(s.cells, s.kids, [], []);
    assert ShowsNode(s.cells, s.kids, 3, T.Node("a", T.Compound([], false)));
  }
}
