/**
 Configuration nodes in memory (conf.c:454-474): cells with parent pointers and sibling rings.  The memory is
 explicit, so that a freed node is one that is gone and a dangling pointer is one that leads nowhere.
 */
module Forest {
  import opened Numbers
  import Tree
  import opened Ring

  /** The value of a node without members. */
  type Leaf = v: Tree.Value | !v.Compound? witness Tree.Integer(0)

  datatype Data = Scalar(value: Leaf) | Members(join: bool)

  datatype Cell = Cell(id: Option<string>, data: Data, refcount: nat, parent: Option<Ptr>)

  type Cells = map<Ptr, Cell>

  /** The members of every compound, in order. */
  type Kids = map<Ptr, seq<Ptr>>

  /** A number for every node that grows from parents to children. */
  type Ranks = map<Ptr, nat>

  // ----- the invariant, clause by clause

  ghost predicate Compounds(cells: Cells, kids: Kids) {
    forall p :: p in kids <==> p in cells && cells[p].data.Members?
  }

  /** Exactly the list_heads of live nodes are allocated. */
  ghost predicate Allocated(links: Links, cells: Cells, kids: Kids) {
    forall l :: l in links <==> if l.Entry? then l.p in cells else l.p in kids
  }

  ghost predicate Rings(links: Links, kids: Kids) {
    forall p | p in kids :: IsRing(links, p, kids[p])
  }

  /** A member is a live node with an id and this parent. */
  ghost predicate Down(cells: Cells, kids: Kids) {
    forall p, c | p in kids && c in kids[p] :: c in cells && cells[c].parent == Some(p) && cells[c].id.Some?
  }

  /** A node with a parent is a member of it. */
  ghost predicate Up(cells: Cells, kids: Kids) {
    forall c | c in cells && cells[c].parent.Some? ::
      cells[c].parent.value in kids && c in kids[cells[c].parent.value]
  }

  ghost predicate SiblingIds(cells: Cells, s: seq<Ptr>) {
    forall i, j :: 0 <= i < j < |s| && s[i] in cells && s[j] in cells ==> cells[s[i]].id != cells[s[j]].id
  }

  ghost predicate AllSiblingIds(cells: Cells, kids: Kids) {
    forall p | p in kids :: SiblingIds(cells, kids[p])
  }

  ghost predicate Ranked(cells: Cells, rank: Ranks) {
    forall c | c in cells ::
      c in rank &&
      (cells[c].parent.Some? ==>
         cells[c].parent.value in cells && cells[c].parent.value in rank && rank[cells[c].parent.value] < rank[c])
  }

  /** Every sibling ring is well linked, parents and members agree, sibling ids differ, and there is no cycle. */
  ghost predicate IsForest(links: Links, cells: Cells, kids: Kids, rank: Ranks) {
    && Compounds(cells, kids)
    && Allocated(links, cells, kids)
    && Rings(links, kids)
    && Down(cells, kids)
    && Up(cells, kids)
    && AllSiblingIds(cells, kids)
    && Ranked(cells, rank)
  }

  /** m is n or below it. */
  ghost predicate Under(cells: Cells, rank: Ranks, m: Ptr, n: Ptr)
    requires Ranked(cells, rank) && m in cells
    decreases rank[m]
  {
    m == n || (cells[m].parent.Some? && Under(cells, rank, cells[m].parent.value, n))
  }

  /** The subtree of n. */
  ghost function Below(cells: Cells, rank: Ranks, n: Ptr): set<Ptr>
    requires Ranked(cells, rank)
  {
    set m | m in cells && Under(cells, rank, m, n)
  }

  // ----- taking a member out

  function Orphan(cells: Cells, c: Ptr): Cells
    requires c in cells
  {
    cells[c := cells[c].(parent := None)]
  }

  lemma DropFacts(s: seq<Ptr>, k: nat, x: Ptr)
    requires k < |s| && Distinct(s)
    ensures x in Drop(s, k) <==> x in s && x != s[k]
    ensures Distinct(Drop(s, k))
  {
    var d := Drop(s, k);
    if x in s && x != s[k] {
      var i :| 0 <= i < |s| && s[i] == x;
      assert d[if i < k then i else i - 1] == x;
    }
    if x in d {
      var i :| 0 <= i < |d| && d[i] == x;
      assert s[if i < k then i else i + 1] == x;
    }
  }

  /** The sequence without x. */
  function Minus(s: seq<Ptr>, x: Ptr): seq<Ptr> {
    if s == [] then [] else if s[0] == x then s[1..] else [s[0]] + Minus(s[1..], x)
  }

  lemma {:induction false} DropIsMinus(s: seq<Ptr>, k: nat)
    requires k < |s| && Distinct(s)
    ensures Drop(s, k) == Minus(s, s[k])
  {
    if k > 0 {
      DropIsMinus(s[1..], k - 1);
      assert Drop(s, k) == [s[0]] + Drop(s[1..], k - 1);
    }
  }

  lemma DetachRings(links: Links, cells: Cells, kids: Kids, p: Ptr, k: nat)
    requires Rings(links, kids) && Down(cells, kids) && p in kids && k < |kids[p]|
    ensures var c := Entry(kids[p][k]);
            && c in links && links[c].prev in links && links[c].next in links
            && links[c].prev != c && links[c].next != c
            && Rings(Removed(links, c), kids[p := Drop(kids[p], k)])
  {
    var s, c := kids[p], Entry(kids[p][k]);
    assert IsRing(links, p, s);
    RingRemove(links, p, s, k);
    var r, kids' := Removed(links, c), kids[p := Drop(s, k)];
    forall q | q in kids'
      ensures IsRing(r, q, kids'[q])
    {
      if q != p {
        assert IsRing(links, q, kids[q]);
        forall l | InRing(l, q, kids[q]) && l in links
          ensures l in r && r[l] == links[l]
        {
          OtherRing(cells, kids, p, q, l, k);
          OtherRing(cells, kids, p, q, l, k + 1);
          OtherRing(cells, kids, p, q, l, k + 2);
        }
        RingFrame(links, r, q, kids[q]);
      }
    }
  }

  /** The list_heads of different rings differ. */
  lemma OtherRing(cells: Cells, kids: Kids, p: Ptr, q: Ptr, l: Link, i: nat)
    requires Down(cells, kids) && p in kids && q in kids && p != q && InRing(l, q, kids[q])
    ensures l != At(p, kids[p], i)
  {
    if 0 < i <= |kids[p]| && l.Entry? {
      assert kids[p][i - 1] in kids[p];
      assert cells[kids[p][i - 1]].parent == Some(p) && cells[l.p].parent == Some(q);
    }
  }

  lemma DetachDown(cells: Cells, kids: Kids, p: Ptr, k: nat)
    requires Down(cells, kids) && p in kids && k < |kids[p]| && Distinct(kids[p])
    ensures kids[p][k] in cells
    ensures Down(Orphan(cells, kids[p][k]), kids[p := Drop(kids[p], k)])
  {
    var s, c := kids[p], kids[p][k];
    assert c in kids[p];
    var kids', cells' := kids[p := Drop(s, k)], Orphan(cells, c);
    forall q, x | q in kids' && x in kids'[q]
      ensures x in cells' && cells'[x].parent == Some(q) && cells'[x].id.Some?
    {
      if q == p {
        DropFacts(s, k, x);
      }
      assert x in kids[q];
      assert x != c;
    }
  }

  lemma DetachUp(cells: Cells, kids: Kids, p: Ptr, k: nat)
    requires Up(cells, kids) && p in kids && k < |kids[p]| && Distinct(kids[p]) && kids[p][k] in cells
    ensures Up(Orphan(cells, kids[p][k]), kids[p := Drop(kids[p], k)])
  {
    var s, c := kids[p], kids[p][k];
    var kids', cells' := kids[p := Drop(s, k)], Orphan(cells, c);
    forall x | x in cells' && cells'[x].parent.Some?
      ensures cells'[x].parent.value in kids' && x in kids'[cells'[x].parent.value]
    {
      assert x != c && x in kids[cells[x].parent.value];
      DropFacts(s, k, x);
    }
  }

  lemma DetachCells(cells: Cells, kids: Kids, p: Ptr, k: nat)
    requires Compounds(cells, kids) && Down(cells, kids) && Up(cells, kids) && AllSiblingIds(cells, kids)
    requires p in kids && k < |kids[p]| && Distinct(kids[p])
    ensures kids[p][k] in cells
    ensures var c, kids' := kids[p][k], kids[p := Drop(kids[p], k)];
            var cells' := Orphan(cells, c);
            Compounds(cells', kids') && Down(cells', kids') && Up(cells', kids') && AllSiblingIds(cells', kids')
  {
    hide Down, Up;
    DetachDown(cells, kids, p, k);
    DetachUp(cells, kids, p, k);
    var kids', cells' := kids[p := Drop(kids[p], k)], Orphan(cells, kids[p][k]);
    forall q | q in kids'
      ensures SiblingIds(cells', kids'[q])
    {
      assert SiblingIds(cells, kids[q]);
      DropSiblings(cells, kids[q], cells', kids'[q], k);
    }
  }

  lemma DropSiblings(cells: Cells, s: seq<Ptr>, cells': Cells, t: seq<Ptr>, k: nat)
    requires SiblingIds(cells, s) && (t == s || (k < |s| && t == Drop(s, k)))
    requires cells'.Keys == cells.Keys && forall x | x in cells :: cells'[x].id == cells[x].id
    ensures SiblingIds(cells', t)
  {
    forall i, j | 0 <= i < j < |t| && t[i] in cells' && t[j] in cells'
      ensures cells'[t[i]].id != cells'[t[j]].id
    {
      if t != s {
        assert t[i] == s[if i < k then i else i + 1] && t[j] == s[if j < k then j else j + 1];
      }
    }
  }

  /** Taking a member out of its ring and clearing its parent pointer keeps the forest. */
  lemma DetachKeeps(links: Links, cells: Cells, kids: Kids, rank: Ranks, p: Ptr, k: nat)
    requires IsForest(links, cells, kids, rank) && p in kids && k < |kids[p]|
    ensures var c := kids[p][k];
            && c in cells && Entry(c) in links
            && links[Entry(c)].prev in links && links[Entry(c)].next in links
            && links[Entry(c)].prev != Entry(c) && links[Entry(c)].next != Entry(c)
            && IsForest(Removed(links, Entry(c)), Orphan(cells, c), kids[p := Drop(kids[p], k)], rank)
  {
    hide Down, Up, Rings, AllSiblingIds, Compounds;
    assert Distinct(kids[p]) by { RingOf(links, kids, p); }
    DetachRings(links, cells, kids, p, k);
    DetachCells(cells, kids, p, k);
  }

  lemma RingOf(links: Links, kids: Kids, p: Ptr)
    requires Rings(links, kids) && p in kids
    ensures IsRing(links, p, kids[p]) && Distinct(kids[p])
  {
  }

  // ----- putting a node in

  function Adopt(cells: Cells, c: Ptr, p: Ptr): Cells
    requires c in cells
  {
    cells[c := cells[c].(parent := Some(p))]
  }

  lemma InsertFacts(s: seq<Ptr>, k: nat, c: Ptr, x: Ptr)
    requires k <= |s|
    ensures x in Insert(s, k, c) <==> x in s || x == c
  {
    var t := Insert(s, k, c);
    if x in s {
      var i :| 0 <= i < |s| && s[i] == x;
      assert t[if i < k then i else i + 1] == x;
    }
    assert t[k] == c;
  }

  lemma AttachRings(links: Links, cells: Cells, kids: Kids, p: Ptr, k: nat, c: Ptr)
    requires Rings(links, kids) && Down(cells, kids) && p in kids && k <= |kids[p]|
    requires c in cells && cells[c].parent.None? && Entry(c) in links
    ensures var prev, next := At(p, kids[p], k), At(p, kids[p], k + 1);
            && prev in links && next in links && Entry(c) != prev && Entry(c) != next
            && Rings(Inserted(links, Entry(c), prev, next), kids[p := Insert(kids[p], k, c)])
  {
    var s := kids[p];
    assert IsRing(links, p, s) && c !in s;
    RingInsert(links, p, s, k, c);
    var r, kids' := Inserted(links, Entry(c), At(p, s, k), At(p, s, k + 1)), kids[p := Insert(s, k, c)];
    forall q | q in kids'
      ensures IsRing(r, q, kids'[q])
    {
      if q != p {
        assert IsRing(links, q, kids[q]) && c !in kids[q];
        forall l | InRing(l, q, kids[q]) && l in links
          ensures l in r && r[l] == links[l]
        {
          OtherRing(cells, kids, p, q, l, k);
          OtherRing(cells, kids, p, q, l, k + 1);
        }
        RingFrame(links, r, q, kids[q]);
      }
    }
  }

  /** The id of c is not the id of any member. */
  ghost predicate IdFree(cells: Cells, s: seq<Ptr>, id: Option<string>) {
    forall i :: 0 <= i < |s| && s[i] in cells ==> cells[s[i]].id != id
  }

  lemma InsertSiblings(cells: Cells, s: seq<Ptr>, k: nat, c: Ptr)
    requires SiblingIds(cells, s) && k <= |s| && c in cells && IdFree(cells, s, cells[c].id)
    ensures SiblingIds(cells, Insert(s, k, c))
  {
    var t := Insert(s, k, c);
    forall i, j | 0 <= i < j < |t| && t[i] in cells && t[j] in cells
      ensures cells[t[i]].id != cells[t[j]].id
    {
      assert i != k ==> t[i] == s[if i < k then i else i - 1];
      assert j != k ==> t[j] == s[if j < k then j else j - 1];
    }
  }

  lemma AttachDown(cells: Cells, kids: Kids, p: Ptr, k: nat, c: Ptr)
    requires Down(cells, kids) && p in kids && k <= |kids[p]| && c in cells && cells[c].parent.None?
    requires cells[c].id.Some?
    ensures Down(Adopt(cells, c, p), kids[p := Insert(kids[p], k, c)])
  {
    var cells', kids' := Adopt(cells, c, p), kids[p := Insert(kids[p], k, c)];
    forall q, x | q in kids' && x in kids'[q]
      ensures x in cells' && cells'[x].parent == Some(q) && cells'[x].id.Some?
    {
      if q == p {
        InsertFacts(kids[p], k, c, x);
      }
      assert (x == c && q == p) || x in kids[q];
    }
  }

  lemma AttachUp(cells: Cells, kids: Kids, p: Ptr, k: nat, c: Ptr)
    requires Up(cells, kids) && p in kids && k <= |kids[p]| && c in cells
    ensures Up(Adopt(cells, c, p), kids[p := Insert(kids[p], k, c)])
  {
    var cells', kids' := Adopt(cells, c, p), kids[p := Insert(kids[p], k, c)];
    forall x | x in cells' && cells'[x].parent.Some?
      ensures cells'[x].parent.value in kids' && x in kids'[cells'[x].parent.value]
    {
      InsertFacts(kids[p], k, c, x);
    }
  }

  lemma AttachCells(cells: Cells, kids: Kids, p: Ptr, k: nat, c: Ptr)
    requires Compounds(cells, kids) && Down(cells, kids) && Up(cells, kids) && AllSiblingIds(cells, kids)
    requires p in kids && k <= |kids[p]|
    requires c in cells && cells[c].parent.None? && cells[c].id.Some? && IdFree(cells, kids[p], cells[c].id)
    ensures var cells', kids' := Adopt(cells, c, p), kids[p := Insert(kids[p], k, c)];
            Compounds(cells', kids') && Down(cells', kids') && Up(cells', kids') && AllSiblingIds(cells', kids')
  {
    hide Down, Up;
    AttachDown(cells, kids, p, k, c);
    AttachUp(cells, kids, p, k, c);
    var cells', kids' := Adopt(cells, c, p), kids[p := Insert(kids[p], k, c)];
    forall q | q in kids'
      ensures SiblingIds(cells', kids'[q])
    {
      assert SiblingIds(cells, kids[q]);
      if q == p {
        InsertSiblings(cells, kids[p], k, c);
      }
    }
  }

  /** The ranks of the tree of c raised above the rank of p. */
  ghost function Raised(cells: Cells, rank: Ranks, c: Ptr, p: Ptr): Ranks
    requires Ranked(cells, rank) && p in rank
  {
    map m | m in cells :: if Under(cells, rank, m, c) then rank[m] + rank[p] + 1 else rank[m]
  }

  lemma AttachRanked(cells: Cells, rank: Ranks, p: Ptr, c: Ptr)
    requires Ranked(cells, rank) && p in cells && c in cells && cells[c].parent.None? && !Under(cells, rank, p, c)
    ensures Ranked(Adopt(cells, c, p), Raised(cells, rank, c, p))
  {
    var cells', rank' := Adopt(cells, c, p), Raised(cells, rank, c, p);
    forall m | m in cells'
      ensures m in rank'
      ensures cells'[m].parent.Some? ==>
                cells'[m].parent.value in cells' && cells'[m].parent.value in rank' && rank'[cells'[m].parent.value] < rank'[m]
    {
      if m != c && cells[m].parent.Some? {
        assert Under(cells, rank, m, c) == Under(cells, rank, cells[m].parent.value, c);
      }
    }
  }

  /** Linking a parentless node with a new id between two neighbours keeps the forest. */
  lemma AttachKeeps(links: Links, cells: Cells, kids: Kids, rank: Ranks, p: Ptr, k: nat, c: Ptr)
    requires IsForest(links, cells, kids, rank) && p in kids && k <= |kids[p]|
    requires c in cells && cells[c].parent.None? && cells[c].id.Some? && IdFree(cells, kids[p], cells[c].id)
    requires p in cells && !Under(cells, rank, p, c)
    ensures var prev, next := At(p, kids[p], k), At(p, kids[p], k + 1);
            && Entry(c) in links && prev in links && next in links && Entry(c) != prev && Entry(c) != next
            && IsForest(Inserted(links, Entry(c), prev, next), Adopt(cells, c, p),
                        kids[p := Insert(kids[p], k, c)], Raised(cells, rank, c, p))
  {
    hide Down, Up, Rings, AllSiblingIds, Compounds, Ranked;
    assert Entry(c) in links;
    AttachRings(links, cells, kids, p, k, c);
    AttachCells(cells, kids, p, k, c);
    AttachRanked(cells, rank, p, c);
  }

  // ----- making and freeing nodes

  lemma MakeKeeps(links: Links, cells: Cells, kids: Kids, rank: Ranks, n: Ptr, id: Option<string>, data: Data)
    requires IsForest(links, cells, kids, rank) && n !in cells
    ensures var l := links[Entry(n) := Ends(Entry(n), Entry(n))];
            var links' := if data.Members? then l[Fields(n) := Ends(Fields(n), Fields(n))] else l;
            var kids' := if data.Members? then kids[n := []] else kids;
            IsForest(links', cells[n := Cell(id, data, 0, None)], kids', rank[n := 0])
  {
    var l := links[Entry(n) := Ends(Entry(n), Entry(n))];
    var links' := if data.Members? then l[Fields(n) := Ends(Fields(n), Fields(n))] else l;
    var kids' := if data.Members? then kids[n := []] else kids;
    assert n !in kids;
    forall q | q in kids'
      ensures IsRing(links', q, kids'[q])
    {
      if q == n {
        RingEmpty(links', n);
      } else {
        assert IsRing(links, q, kids[q]);
        RingFrame(links, links', q, kids[q]);
      }
    }
    var cells' := cells[n := Cell(id, data, 0, None)];
    forall q | q in kids'
      ensures SiblingIds(cells', kids'[q])
    {
      if q != n {
        assert SiblingIds(cells, kids[q]);
        assert forall i :: 0 <= i < |kids[q]| ==> kids[q][i] in kids[q];
      }
    }
  }

  lemma FreeRings(links: Links, cells: Cells, kids: Kids, n: Ptr)
    requires Rings(links, kids) && Down(cells, kids) && n in cells && cells[n].parent.None?
    ensures Rings(links - {Entry(n), Fields(n)}, kids - {n})
  {
    var links', kids' := links - {Entry(n), Fields(n)}, kids - {n};
    forall q | q in kids'
      ensures IsRing(links', q, kids'[q])
    {
      assert IsRing(links, q, kids[q]);
      assert n !in kids[q];
      RingFrame(links, links', q, kids[q]);
    }
  }

  lemma FreeCells(cells: Cells, kids: Kids, n: Ptr)
    requires Down(cells, kids) && Up(cells, kids) && n in cells && cells[n].parent.None?
    requires n in kids ==> kids[n] == []
    ensures Down(cells - {n}, kids - {n}) && Up(cells - {n}, kids - {n})
  {
    var cells', kids' := cells - {n}, kids - {n};
    forall q, x | q in kids' && x in kids'[q]
      ensures x in cells' && cells'[x].parent == Some(q) && cells'[x].id.Some?
    {
      assert x in kids[q];
    }
    forall x | x in cells' && cells'[x].parent.Some?
      ensures cells'[x].parent.value in kids' && x in kids'[cells'[x].parent.value]
    {
      assert x in kids[cells[x].parent.value];
    }
  }

  lemma FreeIds(cells: Cells, kids: Kids, n: Ptr)
    requires AllSiblingIds(cells, kids)
    ensures AllSiblingIds(cells - {n}, kids - {n})
  {
    forall q | q in kids - {n}
      ensures SiblingIds(cells - {n}, kids[q])
    {
      assert SiblingIds(cells, kids[q]);
    }
  }

  lemma FreeRanks(cells: Cells, kids: Kids, rank: Ranks, n: Ptr)
    requires Ranked(cells, rank) && Up(cells, kids) && (n in kids ==> kids[n] == [])
    ensures Ranked(cells - {n}, rank)
  {
    forall c | c in cells && c != n && cells[c].parent.Some?
      ensures cells[c].parent != Some(n)
    {
      assert c in kids[cells[c].parent.value];
    }
  }

  /** Freeing a node that has no members and no parent keeps the forest. */
  lemma FreeKeeps(links: Links, cells: Cells, kids: Kids, rank: Ranks, n: Ptr)
    requires IsForest(links, cells, kids, rank) && n in cells && cells[n].parent.None?
    requires n in kids ==> kids[n] == []
    ensures IsForest(links - {Entry(n), Fields(n)}, cells - {n}, kids - {n}, rank)
  {
    hide Rings, Down, Up, AllSiblingIds, Ranked;
    FreeRings(links, cells, kids, n);
    FreeCells(cells, kids, n);
    FreeIds(cells, kids, n);
    FreeRanks(cells, kids, rank, n);
  }

  // ----- renaming

  lemma RenameIds(cells: Cells, kids: Kids, n: Ptr, id: Option<string>, q: Ptr)
    requires Down(cells, kids) && q in kids && SiblingIds(cells, kids[q]) && Distinct(kids[q]) && n in cells
    requires cells[n].parent == Some(q) ==> forall m | m in kids[q] && m != n :: m in cells && cells[m].id != id
    ensures SiblingIds(cells[n := cells[n].(id := id)], kids[q])
  {
    forall i | 0 <= i < |kids[q]|
      ensures kids[q][i] in cells && cells[kids[q][i]].parent == Some(q)
    {
      assert kids[q][i] in kids[q];
    }
  }

  lemma RenameKeeps(links: Links, cells: Cells, kids: Kids, rank: Ranks, n: Ptr, id: Option<string>)
    requires IsForest(links, cells, kids, rank) && n in cells
    requires cells[n].parent.Some? ==>
               && id.Some? && cells[n].parent.value in kids
               && forall m | m in kids[cells[n].parent.value] && m != n :: m in cells && cells[m].id != id
    ensures IsForest(links, cells[n := cells[n].(id := id)], kids, rank)
  {
    var cells' := cells[n := cells[n].(id := id)];
    hide Rings, SiblingIds;
    forall q | q in kids
      ensures SiblingIds(cells', kids[q])
    {
      RingOf(links, kids, q);
      RenameIds(cells, kids, n, id, q);
    }
  }

  /** Counting references up or down keeps the forest. */
  lemma RecountKeeps(links: Links, cells: Cells, kids: Kids, rank: Ranks, n: Ptr, count: nat)
    requires IsForest(links, cells, kids, rank) && n in cells
    ensures IsForest(links, cells[n := cells[n].(refcount := count)], kids, rank)
  {
    var cells' := cells[n := cells[n].(refcount := count)];
    forall q | q in kids
      ensures SiblingIds(cells', kids[q])
    {
      assert SiblingIds(cells, kids[q]);
    }
  }

  // ----- subtrees

  lemma {:induction false} UnderRank(cells: Cells, rank: Ranks, m: Ptr, n: Ptr)
    requires Ranked(cells, rank) && m in cells && Under(cells, rank, m, n)
    ensures n in cells && rank[n] <= rank[m] && (m != n ==> rank[n] < rank[m])
    decreases rank[m]
  {
    if m != n {
      UnderRank(cells, rank, cells[m].parent.value, n);
    }
  }

  lemma {:induction false} UnderTrans(cells: Cells, rank: Ranks, m: Ptr, c: Ptr, n: Ptr)
    requires Ranked(cells, rank) && m in cells && c in cells
    requires Under(cells, rank, m, c) && Under(cells, rank, c, n)
    ensures Under(cells, rank, m, n)
    decreases rank[m]
  {
    if m != c {
      UnderTrans(cells, rank, cells[m].parent.value, c, n);
    }
  }

  /** What is strictly below a node is below one of its children. */
  lemma {:induction false} UnderViaChild(cells: Cells, rank: Ranks, m: Ptr, n: Ptr) returns (c: Ptr)
    requires Ranked(cells, rank) && m in cells && Under(cells, rank, m, n) && m != n
    ensures c in cells && cells[c].parent == Some(n) && Under(cells, rank, m, c)
    decreases rank[m]
  {
    var p := cells[m].parent.value;
    if p == n {
      c := m;
    } else {
      c := UnderViaChild(cells, rank, p, n);
    }
  }

  /** Freeing other nodes does not change who is below whom. */
  lemma {:induction false} UnderFrame(cells: Cells, cells': Cells, rank: Ranks, m: Ptr, n: Ptr)
    requires Ranked(cells, rank) && Ranked(cells', rank) && m in cells'
    requires forall x | x in cells' :: x in cells && cells'[x].parent == cells[x].parent
    ensures Under(cells', rank, m, n) == Under(cells, rank, m, n)
    decreases rank[m]
  {
    if m != n && cells'[m].parent.Some? {
      UnderFrame(cells, cells', rank, cells'[m].parent.value, n);
    }
  }

  /** The nodes below one of the first i members. */
  ghost function BelowFirst(cells: Cells, rank: Ranks, s: seq<Ptr>, i: nat): set<Ptr>
    requires Ranked(cells, rank) && i <= |s|
  {
    set m | m in cells && exists j :: 0 <= j < i && Under(cells, rank, m, s[j])
  }

  /** Deleting the next member after the first i deletes what is below it. */
  lemma BelowNext(cells: Cells, cells': Cells, rank: Ranks, s: seq<Ptr>, i: nat)
    requires Ranked(cells, rank) && Ranked(cells', rank) && i < |s|
    requires cells' == cells - BelowFirst(cells, rank, s, i)
    ensures BelowFirst(cells, rank, s, i) + Below(cells', rank, s[i]) == BelowFirst(cells, rank, s, i + 1)
  {
    forall m | m in cells'
      ensures Under(cells', rank, m, s[i]) == Under(cells, rank, m, s[i])
    {
      UnderFrame(cells, cells', rank, m, s[i]);
    }
  }

  lemma BelowNone(cells: Cells, rank: Ranks, s: seq<Ptr>)
    requires Ranked(cells, rank)
    ensures BelowFirst(cells, rank, s, 0) == {}
  {
  }

  lemma MemberOf(cells: Cells, kids: Kids, p: Ptr, c: Ptr)
    requires Down(cells, kids) && p in kids && c in kids[p]
    ensures c in cells && cells[c].parent == Some(p)
  {
  }

  lemma BelowAll(cells: Cells, kids: Kids, rank: Ranks, n: Ptr)
    requires Ranked(cells, rank) && Up(cells, kids) && Down(cells, kids) && n in kids && n in cells
    ensures BelowFirst(cells, rank, kids[n], |kids[n]|) == Below(cells, rank, n) - {n}
  {
    var s := kids[n];
    forall m | m in cells
      ensures m in BelowFirst(cells, rank, s, |s|) <==> m in Below(cells, rank, n) - {n}
    {
      if m in Below(cells, rank, n) - {n} {
        var c := UnderViaChild(cells, rank, m, n);
        assert c in s;
      }
      if m in BelowFirst(cells, rank, s, |s|) {
        var j :| 0 <= j < |s| && Under(cells, rank, m, s[j]);
        assert s[j] in s && Under(cells, rank, s[j], n) by { assert Under(cells, rank, n, n); }
        UnderTrans(cells, rank, m, s[j], n);
        UnderRank(cells, rank, m, s[j]);
      }
    }
  }

  /** The subtree of a member is a proper part of the subtree of its parent. */
  lemma MemberSmaller(cells: Cells, cells': Cells, rank: Ranks, c: Ptr, n: Ptr)
    requires Ranked(cells, rank) && Ranked(cells', rank) && c in cells' && n in cells
    requires forall x | x in cells' :: x in cells && cells'[x].parent == cells[x].parent
    requires cells[c].parent == Some(n)
    ensures Below(cells', rank, c) < Below(cells, rank, n)
    ensures n !in Below(cells', rank, c) && Below(cells', rank, c) <= cells'.Keys
  {
    forall m | m in Below(cells', rank, c)
      ensures m in Below(cells, rank, n) && m != n
    {
      UnderFrame(cells, cells', rank, m, c);
      assert Under(cells, rank, c, n) by { assert Under(cells, rank, n, n); }
      UnderTrans(cells, rank, m, c, n);
      UnderRank(cells, rank, m, c);
    }
    assert n in Below(cells, rank, n);
  }

  /** A parent is not below its child. */
  lemma ParentOutside(cells: Cells, rank: Ranks, n: Ptr)
    requires Ranked(cells, rank) && n in cells && cells[n].parent.Some?
    ensures cells[n].parent.value !in Below(cells, rank, n)
  {
    if cells[n].parent.value in Below(cells, rank, n) {
      UnderRank(cells, rank, cells[n].parent.value, n);
    }
  }
}
