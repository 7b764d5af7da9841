/** The tree that a node in memory stands for, and which changes of the memory leave it alone. */
module HeapTree {
  import opened Numbers
  import T = Tree
  import opened Ring
  import opened Forest

  /** n is the root of nodes that make up the value v. */
  ghost predicate Shows(cells: Cells, kids: Kids, n: Ptr, v: T.Value)
    decreases v, 1
  {
    && n in cells
    && match v
       case Compound(ks, join) => cells[n].data == Members(join) && n in kids && ShowsAll(cells, kids, kids[n], ks)
       case _ => cells[n].data == Scalar(v)
  }

  /** The members s are the children ks, in order, with their ids. */
  ghost predicate ShowsAll(cells: Cells, kids: Kids, s: seq<Ptr>, ks: seq<T.Node>)
    decreases ks, 0
  {
    && |s| == |ks|
    && forall i :: 0 <= i < |ks| ==> ShowsNode(cells, kids, s[i], ks[i])
  }

  ghost predicate ShowsNode(cells: Cells, kids: Kids, c: Ptr, k: T.Node)
    decreases k, 2
  {
    c in cells && cells[c].id == Some(k.id) && Shows(cells, kids, c, k.value)
  }

  // ----- who is below whom, in two memories

  /** Two nodes above a third are above one another. */
  lemma {:induction false} UnderLinear(cells: Cells, rank: Ranks, m: Ptr, a: Ptr, b: Ptr)
    requires Ranked(cells, rank) && m in cells && a in cells && b in cells
    requires Under(cells, rank, m, a) && Under(cells, rank, m, b)
    ensures Under(cells, rank, a, b) || Under(cells, rank, b, a)
    decreases rank[m]
  {
    if m != a && m != b {
      UnderLinear(cells, rank, cells[m].parent.value, a, b);
    }
  }

  /** Trees that hang apart share no node. */
  lemma Apart(cells: Cells, rank: Ranks, a: Ptr, b: Ptr)
    requires Ranked(cells, rank) && a in cells && b in cells
    requires !Under(cells, rank, a, b) && !Under(cells, rank, b, a)
    ensures Below(cells, rank, a) !! Below(cells, rank, b)
  {
    forall m | m in Below(cells, rank, a)
      ensures m !in Below(cells, rank, b)
    {
      if Under(cells, rank, m, b) {
        UnderLinear(cells, rank, m, a, b);
      }
    }
  }

  lemma SiblingsApart(cells: Cells, rank: Ranks, a: Ptr, b: Ptr)
    requires Ranked(cells, rank) && a in cells && b in cells && a != b
    requires cells[a].parent.Some? && cells[a].parent == cells[b].parent
    ensures !Under(cells, rank, a, b) && !Under(cells, rank, b, a)
  {
    var p := cells[a].parent.value;
    if Under(cells, rank, p, b) {
      UnderRank(cells, rank, p, b);
    }
    if Under(cells, rank, p, a) {
      UnderRank(cells, rank, p, a);
    }
  }

  lemma MemberUnder(cells: Cells, rank: Ranks, c: Ptr, p: Ptr)
    requires Ranked(cells, rank) && c in cells && cells[c].parent == Some(p)
    ensures Under(cells, rank, c, p) && !Under(cells, rank, p, c)
  {
    assert Under(cells, rank, p, p);
    if Under(cells, rank, p, c) {
      UnderRank(cells, rank, p, c);
    }
  }

  /** What hangs below two trees that hang apart hangs apart. */
  lemma ApartBelow(cells: Cells, rank: Ranks, a: Ptr, b: Ptr, x: Ptr, y: Ptr)
    requires Ranked(cells, rank) && a in cells && b in cells && x in cells && y in cells
    requires !Under(cells, rank, a, b) && !Under(cells, rank, b, a)
    requires Under(cells, rank, x, a) && Under(cells, rank, y, b)
    ensures !Under(cells, rank, x, y) && !Under(cells, rank, y, x)
    ensures !Under(cells, rank, x, b) && !Under(cells, rank, y, a)
  {
    Apart(cells, rank, a, b);
    assert x in Below(cells, rank, a) && y in Below(cells, rank, b);
    if Under(cells, rank, x, y) {
      UnderTrans(cells, rank, x, y, b);
    }
    if Under(cells, rank, y, x) {
      UnderTrans(cells, rank, y, x, a);
    }
  }

  /** The parents of nodes outside the zone are the same in both memories and outside the zone themselves. */
  ghost predicate SameOutside(cells: Cells, cells': Cells, zone: set<Ptr>) {
    forall m | m in cells && m !in zone ::
      m in cells' && cells'[m].parent == cells[m].parent &&
      (cells[m].parent.Some? ==> cells[m].parent.value !in zone)
  }

  lemma {:induction false} OutsideUnder(cells: Cells, rank: Ranks, cells': Cells, rank': Ranks, zone: set<Ptr>, m: Ptr,
                                        n: Ptr)
    requires Ranked(cells, rank) && Ranked(cells', rank') && m in cells && m !in zone
    requires SameOutside(cells, cells', zone)
    ensures m in cells' && Under(cells', rank', m, n) == Under(cells, rank, m, n)
    decreases rank[m]
  {
    if m != n && cells[m].parent.Some? {
      OutsideUnder(cells, rank, cells', rank', zone, cells[m].parent.value, n);
    }
  }

  /** What is strictly below a root stays below the root that takes its place. */
  lemma {:induction false} InsideUnder(cells: Cells, rank: Ranks, cells': Cells, rank': Ranks, r: Ptr, r': Ptr, m: Ptr)
    requires Ranked(cells, rank) && Ranked(cells', rank') && r in cells
    requires m in Below(cells, rank, r) && m != r
    requires forall x | x in Below(cells, rank, r) && x != r ::
               x in cells' && cells'[x].parent == if cells[x].parent == Some(r) then Some(r') else cells[x].parent
    ensures m in cells' && Under(cells', rank', m, r')
    decreases rank[m]
  {
    if cells[m].parent == Some(r) {
      assert r' in cells' && Under(cells', rank', r', r');
    } else {
      InsideUnder(cells, rank, cells', rank', r, r', cells[m].parent.value);
    }
  }

  // ----- what keeps a tree

  /** The nodes below n hold the same data and members in both memories; all but n also the same id. */
  ghost predicate SameBelow(cells: Cells, kids: Kids, rank: Ranks, cells': Cells, kids': Kids, n: Ptr)
    requires Ranked(cells, rank)
  {
    forall m | m in Below(cells, rank, n) ::
      && m in cells' && cells'[m].data == cells[m].data
      && (m != n ==> cells'[m].id == cells[m].id)
      && (m in kids ==> m in kids' && kids'[m] == kids[m])
  }

  lemma SameBelowMember(cells: Cells, kids: Kids, rank: Ranks, cells': Cells, kids': Kids, n: Ptr, c: Ptr)
    requires Ranked(cells, rank) && Down(cells, kids) && n in kids && c in kids[n]
    requires SameBelow(cells, kids, rank, cells', kids', n)
    ensures c in cells' && cells'[c].id == cells[c].id
    ensures SameBelow(cells, kids, rank, cells', kids', c)
  {
    MemberUnder(cells, rank, c, n);
    UnderRank(cells, rank, c, n);
    assert c in Below(cells, rank, n);
    forall m | m in Below(cells, rank, c)
      ensures m in Below(cells, rank, n) && m != n
    {
      UnderTrans(cells, rank, m, c, n);
    }
  }

  lemma {:induction false} ShowsFrame(cells: Cells, kids: Kids, rank: Ranks, cells': Cells, kids': Kids, n: Ptr,
                                      v: T.Value)
    requires Ranked(cells, rank) && Down(cells, kids)
    requires Shows(cells, kids, n, v) && SameBelow(cells, kids, rank, cells', kids', n)
    ensures Shows(cells', kids', n, v)
    decreases v
  {
    assert n in Below(cells, rank, n);
    if v.Compound? {
      forall i | 0 <= i < |v.kids|
        ensures ShowsNode(cells', kids', kids[n][i], v.kids[i])
      {
        assert ShowsNode(cells, kids, kids[n][i], v.kids[i]);
        SameBelowMember(cells, kids, rank, cells', kids', n, kids[n][i]);
        ShowsFrame(cells, kids, rank, cells', kids', kids[n][i], v.kids[i].value);
      }
    }
  }

  // ----- every node stands for exactly one tree

  lemma {:induction false} ShowsOne(cells: Cells, kids: Kids, n: Ptr, v: T.Value, w: T.Value)
    requires Shows(cells, kids, n, v) && Shows(cells, kids, n, w)
    ensures v == w
    decreases v
  {
    if v.Compound? && w.Compound? {
      forall i | 0 <= i < |v.kids|
        ensures v.kids[i] == w.kids[i]
      {
        assert ShowsNode(cells, kids, kids[n][i], v.kids[i]) && ShowsNode(cells, kids, kids[n][i], w.kids[i]);
        ShowsOne(cells, kids, kids[n][i], v.kids[i].value, w.kids[i].value);
      }
    }
  }

  lemma {:induction false} ShowsSome(links: Links, cells: Cells, kids: Kids, rank: Ranks, n: Ptr) returns (v: T.Value)
    requires IsForest(links, cells, kids, rank) && n in cells
    ensures Shows(cells, kids, n, v)
    decreases Below(cells, rank, n), 0
  {
    if cells[n].data.Scalar? {
      v := cells[n].data.value;
    } else {
      var ks := ShowsMembers(links, cells, kids, rank, n, kids[n]);
      v := T.Compound(ks, cells[n].data.join);
    }
  }

  lemma {:induction false} ShowsMembers(links: Links, cells: Cells, kids: Kids, rank: Ranks, n: Ptr, s: seq<Ptr>)
    returns (ks: seq<T.Node>)
    requires IsForest(links, cells, kids, rank) && n in kids && n in cells
    requires forall c | c in s :: c in kids[n]
    ensures ShowsAll(cells, kids, s, ks)
    decreases Below(cells, rank, n), 0, |s|
  {
    ks := [];
    if s != [] {
      var c := s[0];
      assert c in kids[n];
      MemberSmaller(cells, cells, rank, c, n);
      var v := ShowsSome(links, cells, kids, rank, c);
      var rest := ShowsMembers(links, cells, kids, rank, n, s[1..]);
      ks := [T.Node(cells[c].id.value, v)] + rest;
      forall i | 0 <= i < |ks|
        ensures ShowsNode(cells, kids, s[i], ks[i])
      {
        if i > 0 {
          assert ShowsNode(cells, kids, s[1..][i - 1], rest[i - 1]);
        }
      }
    }
  }

  /** The children of a node in a forest have distinct ids. */
  lemma ShowsDistinct(links: Links, cells: Cells, kids: Kids, rank: Ranks, n: Ptr, v: T.Value)
    requires IsForest(links, cells, kids, rank) && Shows(cells, kids, n, v) && v.Compound?
    ensures T.DistinctIds(v.kids)
  {
    var s := kids[n];
    assert SiblingIds(cells, s);
    forall i, j | 0 <= i < j < |v.kids|
      ensures v.kids[i].id != v.kids[j].id
    {
      assert ShowsNode(cells, kids, s[i], v.kids[i]) && ShowsNode(cells, kids, s[j], v.kids[j]);
    }
  }

  /** Finding a member by id is finding the child. */
  lemma ShowsFind(links: Links, cells: Cells, kids: Kids, rank: Ranks, n: Ptr, v: T.Value, i: nat)
    requires IsForest(links, cells, kids, rank) && Shows(cells, kids, n, v) && v.Compound? && i < |v.kids|
    ensures i < |kids[n]| && kids[n][i] in cells && cells[kids[n][i]].id == Some(v.kids[i].id)
    ensures T.Find(v.kids, v.kids[i].id) == Some(i)
  {
    ShowsDistinct(links, cells, kids, rank, n, v);
    T.FindUnique(v.kids, i);
    assert ShowsNode(cells, kids, kids[n][i], v.kids[i]);
  }
}
