/**
 snd_config_substitute (conf.c:1738-1766) on nodes in memory: what it does to the links, and exactly when a
 well-formed forest comes out of it.
 */
module Substitution {
  import opened Numbers
  import Tree
  import opened Ring
  import opened Forest

  /** The two assignments that hand the ring of src over to the head of dst. */
  function Relinked(links: Links, dst: Ptr, src: Ptr): (r: Links)
    requires Fields(src) in links && Fields(dst) in links
    requires links[Fields(src)].next in links && links[Fields(src)].prev in links
    ensures r.Keys == links.Keys
  {
    var first := links[Fields(src)].next;
    var a := links[first := Ends(links[first].next, Fields(dst))];
    var last := a[Fields(src)].prev;
    a[last := Ends(Fields(dst), a[last].prev)]
  }

  ghost predicate BothCompounds(cells: Cells, dst: Ptr, src: Ptr)
    requires dst in cells && src in cells
  {
    cells[dst].data.Members? && cells[src].data.Members?
  }

  /** What may be substituted: two different nodes, neither below the other; dst has no members left. */
  ghost predicate Ready(links: Links, cells: Cells, kids: Kids, rank: Ranks, dst: Ptr, src: Ptr) {
    && IsForest(links, cells, kids, rank)
    && dst in cells && src in cells && dst != src
    && !Under(cells, rank, dst, src) && !Under(cells, rank, src, dst)
    && (dst in kids ==> kids[dst] == [])
  }

  ghost function Reparented(cells: Cells, s: seq<Ptr>, p: Ptr): Cells {
    map m | m in cells :: if m in s then cells[m].(parent := Some(p)) else cells[m]
  }

  lemma ReadyFacts(links: Links, cells: Cells, kids: Kids, rank: Ranks, dst: Ptr, src: Ptr)
    requires Ready(links, cells, kids, rank, dst, src)
    ensures cells[src].data.Members? <==> src in kids
    ensures cells[dst].data.Members? <==> dst in kids
    ensures Entry(src) in links && Entry(dst) in links
    ensures src in kids ==>
              && IsRing(links, src, kids[src]) && Linked(links, src, kids[src], 0)
              && Linked(links, src, kids[src], |kids[src]|)
    ensures dst in kids ==> Fields(dst) in links
  {
    if src in kids {
      RingOf(links, kids, src);
    }
  }

  /** The links after the call, in the order of its assignments. */
  ghost function SubstLinks(links: Links, cells: Cells, kids: Kids, rank: Ranks, dst: Ptr, src: Ptr): Links
    requires Ready(links, cells, kids, rank, dst, src)
  {
    var b := UnhookedLinks(links, cells, kids, rank, dst, src);
    var c := if cells[src].data.Members? then b[Fields(dst) := b[Fields(src)]] else b - {Fields(dst)};
    c - {Entry(src), Fields(src)}
  }

  /** The links when the members have been handed over and src has left its ring. */
  ghost function UnhookedLinks(links: Links, cells: Cells, kids: Kids, rank: Ranks, dst: Ptr, src: Ptr): (r: Links)
    requires Ready(links, cells, kids, rank, dst, src)
    ensures r.Keys == links.Keys
    ensures cells[src].data.Members? ==> Fields(src) in r
  {
    ReadyFacts(links, cells, kids, rank, dst, src);
    var a := if BothCompounds(cells, dst, src) then Relinked(links, dst, src) else links;
    if cells[src].parent.Some? then Unlinked(a, Entry(src)) else a
  }

  /** list_del, as it acts on whatever neighbours the entry has. */
  function Unlinked(links: Links, c: Link): (r: Links)
    requires c in links
    ensures r.Keys == links.Keys
  {
    var p, n := links[c].prev, links[c].next;
    var a := if p in links then links[p := Ends(n, links[p].prev)] else links;
    if n in a then a[n := Ends(a[n].next, p)] else a
  }

  lemma UnlinkedIsRemoved(links: Links, c: Link)
    requires c in links && links[c].prev in links && links[c].next in links
    requires links[c].prev != c && links[c].next != c
    ensures Unlinked(links, c) == Removed(links, c)
  {
  }

  /** The cells when the members have been handed over. */
  ghost function HandedCells(cells: Cells, kids: Kids, dst: Ptr, src: Ptr): (r: Cells)
    requires dst in cells && src in cells
    ensures r.Keys == cells.Keys
  {
    if BothCompounds(cells, dst, src) && src in kids then Reparented(cells, kids[src], dst) else cells
  }

  /** The cells after the call: dst takes id and data, and src is freed. */
  ghost function SubstCells(cells: Cells, kids: Kids, dst: Ptr, src: Ptr): Cells
    requires dst in cells && src in cells
  {
    var a := HandedCells(cells, kids, dst, src);
    a[dst := Cell(cells[src].id, cells[src].data, cells[dst].refcount, cells[dst].parent)] - {src}
  }

  /** A scalar, or a compound with members for a compound. */
  ghost predicate RingSound(cells: Cells, kids: Kids, dst: Ptr, src: Ptr)
    requires dst in cells && src in cells
  {
    cells[src].data.Scalar? || (cells[dst].data.Members? && src in kids && kids[src] != [])
  }

  /** The id of src is one that dst can take among its siblings. */
  ghost predicate IdFits(cells: Cells, dst: Ptr, src: Ptr)
    requires dst in cells && src in cells
  {
    cells[dst].parent.Some? ==>
      && cells[src].id.Some?
      && forall m | m in cells && cells[m].parent == cells[dst].parent && m != dst && m != src :: cells[m].id != cells[src].id
  }

  /** What a caller has to make sure of. */
  ghost predicate Sound(cells: Cells, kids: Kids, dst: Ptr, src: Ptr)
    requires dst in cells && src in cells
  {
    RingSound(cells, kids, dst, src) && IdFits(cells, dst, src)
  }

  /** The member lists once n has left its siblings. */
  ghost function Unlisted(cells: Cells, kids: Kids, n: Ptr): Kids
    requires n in cells
  {
    match cells[n].parent
    case None => kids
    case Some(p) => if p in kids then kids[p := Minus(kids[p], n)] else kids
  }

  /** The member lists after the call. */
  ghost function SubstKids(cells: Cells, kids: Kids, dst: Ptr, src: Ptr): Kids
    requires dst in cells && src in cells
  {
    var k := Unlisted(cells, kids, src);
    if src in kids then k[dst := kids[src]] - {src} else k - {dst}
  }

  // ----- otherwise the ring of dst is broken

  /** The new head of dst points at the freed head of src, or its first member still does. */
  lemma HeadDangles(links: Links, cells: Cells, kids: Kids, rank: Ranks, dst: Ptr, src: Ptr)
    requires Ready(links, cells, kids, rank, dst, src) && !RingSound(cells, kids, dst, src)
    ensures var l := SubstLinks(links, cells, kids, rank, dst, src);
            && Fields(dst) in l && Fields(src) !in l
            && var n := l[Fields(dst)].next;
            (n == Fields(src) || (n in l && l[n].prev == Fields(src)))
  {
    ReadyFacts(links, cells, kids, rank, dst, src);
    var s := kids[src];
    var a := if BothCompounds(cells, dst, src) then Relinked(links, dst, src) else links;
    if s == [] {
      assert links[Fields(src)].next == Fields(src);
      UnlinkKeepsHead(links, a, cells, kids, rank, dst, src);
    } else {
      assert links[Fields(src)].next == Entry(s[0]) && links[Entry(s[0])].prev == Fields(src);
      UnlinkKeepsHead(links, a, cells, kids, rank, dst, src);
    }
  }

  /** Taking src out of its own ring leaves the head and the members of src alone. */
  lemma UnlinkKeepsHead(links: Links, a: Links, cells: Cells, kids: Kids, rank: Ranks, dst: Ptr, src: Ptr)
    requires Ready(links, cells, kids, rank, dst, src) && src in kids
    requires a.Keys == links.Keys && a[Entry(src)] == links[Entry(src)]
    ensures var b := if cells[src].parent.Some? then Unlinked(a, Entry(src)) else a;
            && b.Keys == links.Keys
            && b[Fields(src)] == a[Fields(src)]
            && forall m | m in kids[src] :: Entry(m) in b && b[Entry(m)] == a[Entry(m)]
  {
    assert Entry(src) in links && Fields(src) in links;
    if cells[src].parent.Some? {
      var p := cells[src].parent.value;
      assert p in kids && src in kids[p];
      var k :| 0 <= k < |kids[p]| && kids[p][k] == src;
      RingOf(links, kids, p);
      RingRemove(links, p, kids[p], k);
      assert p != src;
      forall m | m in kids[src]
        ensures Entry(m) in links && Entry(m) != At(p, kids[p], k) && Entry(m) != At(p, kids[p], k + 2)
      {
        assert InRing(Entry(m), src, kids[src]);
        OtherRing(cells, kids, p, src, Entry(m), k);
        OtherRing(cells, kids, p, src, Entry(m), k + 2);
      }
      assert InRing(Fields(src), src, kids[src]);
      OtherRing(cells, kids, p, src, Fields(src), k);
      OtherRing(cells, kids, p, src, Fields(src), k + 2);
    } else {
      assert forall m | m in kids[src] :: Entry(m) in links;
    }
  }

  lemma HeadLinked(links: Links, cells: Cells, kids: Kids, rank: Ranks, p: Ptr)
    requires IsForest(links, cells, kids, rank) && p in cells && cells[p].data.Members?
    ensures p in kids && Linked(links, p, kids[p], 0)
  {
    RingOf(links, kids, p);
  }

  lemma SiblingsDiffer(links: Links, cells: Cells, kids: Kids, rank: Ranks, n: Ptr, m: Ptr)
    requires IsForest(links, cells, kids, rank) && n in cells && m in cells && m != n
    requires cells[n].parent.Some? && cells[m].parent == cells[n].parent
    ensures cells[m].id != cells[n].id && cells[n].id.Some?
  {
    var s := kids[cells[n].parent.value];
    assert n in s && m in s;
    var i :| 0 <= i < |s| && s[i] == n;
    var j :| 0 <= j < |s| && s[j] == m;
    assert SiblingIds(cells, s);
  }

  lemma NotParent(cells: Cells, rank: Ranks, dst: Ptr, src: Ptr)
    requires Ranked(cells, rank) && dst in cells && src in cells && !Under(cells, rank, dst, src)
    ensures cells[dst].parent != Some(src)
  {
    assert Under(cells, rank, src, src);
  }

  lemma SiblingUntouched(links: Links, cells: Cells, kids: Kids, rank: Ranks, dst: Ptr, src: Ptr, m: Ptr)
    requires Ready(links, cells, kids, rank, dst, src) && m in cells && m != dst && m != src
    requires cells[dst].parent.Some? && cells[m].parent == cells[dst].parent
    ensures m in SubstCells(cells, kids, dst, src) && SubstCells(cells, kids, dst, src)[m] == cells[m]
  {
    NotParent(cells, rank, dst, src);
    assert src in kids ==> m !in kids[src];
  }

  /**
   With a compound source that is empty or replaces a scalar, or an id that does not fit, no forest comes out,
   whatever its members.
   */
  lemma SubstituteCorrupts(links: Links, cells: Cells, kids: Kids, rank: Ranks, dst: Ptr, src: Ptr, kids': Kids,
                           rank': Ranks)
    requires Ready(links, cells, kids, rank, dst, src) && !Sound(cells, kids, dst, src)
    ensures !IsForest(SubstLinks(links, cells, kids, rank, dst, src), SubstCells(cells, kids, dst, src), kids', rank')
  {
    var l, c := SubstLinks(links, cells, kids, rank, dst, src), SubstCells(cells, kids, dst, src);
    if !RingSound(cells, kids, dst, src) {
      HeadDangles(links, cells, kids, rank, dst, src);
      if IsForest(l, c, kids', rank') {
        HeadLinked(l, c, kids', rank', dst);
      }
    } else if cells[src].id.None? {
      assert c[dst].id.None? && c[dst].parent.Some?;
    } else {
      var m :| m in cells && cells[m].parent == cells[dst].parent && m != dst && m != src && cells[m].id == cells[src].id;
      SiblingUntouched(links, cells, kids, rank, dst, src, m);
      if IsForest(l, c, kids', rank') {
        SiblingsDiffer(l, c, kids', rank', dst, m);
      }
    }
  }

  // ----- and under that condition a forest comes out

  /** Handing the members of src to an empty dst. */
  ghost function MovedLinks(links: Links, dst: Ptr, src: Ptr): Links
    requires Fields(src) in links && Fields(dst) in links
    requires links[Fields(src)].next in links && links[Fields(src)].prev in links
  {
    var a := Relinked(links, dst, src);
    a[Fields(dst) := a[Fields(src)]][Fields(src) := Ends(Fields(src), Fields(src))]
  }

  lemma MovedRing(links: Links, dst: Ptr, src: Ptr, s: seq<Ptr>)
    requires IsRing(links, src, s) && s != [] && Fields(dst) in links && dst != src
    ensures Fields(src) in links && links[Fields(src)].next in links && links[Fields(src)].prev in links
    ensures IsRing(MovedLinks(links, dst, src), dst, s) && IsRing(MovedLinks(links, dst, src), src, [])
  {
    var n := |s|;
    assert Linked(links, src, s, 0) && Linked(links, src, s, n);
    var l := MovedLinks(links, dst, src);
    forall i | 0 <= i <= n
      ensures Linked(l, dst, s, i)
    {
      assert Linked(links, src, s, i);
      if 0 < i < n {
        assert s[i - 1] != s[n - 1] && s[i] != s[0];
      }
    }
    RingEmpty(l, src);
  }

  lemma MovedRings(links: Links, cells: Cells, kids: Kids, dst: Ptr, src: Ptr)
    requires Rings(links, kids) && Down(cells, kids) && dst in kids && src in kids && dst != src
    requires kids[dst] == [] && kids[src] != []
    ensures Fields(src) in links && Fields(dst) in links
    ensures links[Fields(src)].next in links && links[Fields(src)].prev in links
    ensures Rings(MovedLinks(links, dst, src), kids[dst := kids[src]][src := []])
  {
    var s := kids[src];
    RingOf(links, kids, src);
    RingOf(links, kids, dst);
    assert Linked(links, dst, kids[dst], 0) && Linked(links, src, s, 0) && Linked(links, src, s, |s|);
    MovedRing(links, dst, src, s);
    var l, kids' := MovedLinks(links, dst, src), kids[dst := s][src := []];
    forall q | q in kids'
      ensures IsRing(l, q, kids'[q])
    {
      if q != dst && q != src {
        assert IsRing(links, q, kids[q]);
        forall x | InRing(x, q, kids[q]) && x in links
          ensures x in l && l[x] == links[x]
        {
          OtherRing(cells, kids, src, q, x, 1);
          OtherRing(cells, kids, src, q, x, |s|);
        }
        RingFrame(links, l, q, kids[q]);
      }
    }
  }

  lemma MovedDown(cells: Cells, kids: Kids, dst: Ptr, src: Ptr)
    requires Down(cells, kids) && dst in kids && src in kids && dst != src && kids[dst] == []
    ensures Down(Reparented(cells, kids[src], dst), kids[dst := kids[src]][src := []])
  {
    var cells', kids' := Reparented(cells, kids[src], dst), kids[dst := kids[src]][src := []];
    forall q, x | q in kids' && x in kids'[q]
      ensures x in cells' && cells'[x].parent == Some(q) && cells'[x].id.Some?
    {
      if q != dst {
        assert x in kids[q];
      } else {
        assert x in kids[src];
      }
    }
  }

  lemma MovedUp(cells: Cells, kids: Kids, dst: Ptr, src: Ptr)
    requires Up(cells, kids) && dst in kids && src in kids && dst != src && kids[dst] == []
    ensures Up(Reparented(cells, kids[src], dst), kids[dst := kids[src]][src := []])
  {
    var cells', kids' := Reparented(cells, kids[src], dst), kids[dst := kids[src]][src := []];
    forall x | x in cells' && cells'[x].parent.Some?
      ensures cells'[x].parent.value in kids' && x in kids'[cells'[x].parent.value]
    {
      if x !in kids[src] {
        assert x in kids[cells[x].parent.value];
      }
    }
  }

  lemma MovedCells(cells: Cells, kids: Kids, dst: Ptr, src: Ptr)
    requires Compounds(cells, kids) && Down(cells, kids) && Up(cells, kids) && AllSiblingIds(cells, kids)
    requires dst in kids && src in kids && dst != src && kids[dst] == []
    ensures var cells', kids' := Reparented(cells, kids[src], dst), kids[dst := kids[src]][src := []];
            Compounds(cells', kids') && Down(cells', kids') && Up(cells', kids') && AllSiblingIds(cells', kids')
  {
    hide Down, Up;
    MovedDown(cells, kids, dst, src);
    MovedUp(cells, kids, dst, src);
    var cells', kids' := Reparented(cells, kids[src], dst), kids[dst := kids[src]][src := []];
    forall q | q in kids'
      ensures SiblingIds(cells', kids'[q])
    {
      var from := if q == dst then src else q;
      assert SiblingIds(cells, kids[from]);
      SameIds(cells, cells', kids'[q]);
    }
  }

  lemma SameIds(cells: Cells, cells': Cells, s: seq<Ptr>)
    requires cells'.Keys == cells.Keys && forall m | m in cells :: cells'[m].id == cells[m].id
    requires SiblingIds(cells, s) || s == []
    ensures SiblingIds(cells', s)
  {
  }

  /** Everything strictly below src is lifted above dst. */
  ghost function LiftedRanks(cells: Cells, rank: Ranks, dst: Ptr, src: Ptr): Ranks
    requires Ranked(cells, rank) && dst in rank
  {
    map m | m in cells :: if Under(cells, rank, m, src) && m != src then rank[m] + rank[dst] + 1 else rank[m]
  }

  lemma MovedRanked(cells: Cells, kids: Kids, rank: Ranks, dst: Ptr, src: Ptr)
    requires Ranked(cells, rank) && Down(cells, kids) && Up(cells, kids)
    requires dst in cells && src in kids && !Under(cells, rank, dst, src)
    ensures Ranked(Reparented(cells, kids[src], dst), LiftedRanks(cells, rank, dst, src))
  {
    var cells', rank' := Reparented(cells, kids[src], dst), LiftedRanks(cells, rank, dst, src);
    forall m | m in cells'
      ensures m in rank'
      ensures cells'[m].parent.Some? ==>
                cells'[m].parent.value in cells' && cells'[m].parent.value in rank' && rank'[cells'[m].parent.value] < rank'[m]
    {
      if m in kids[src] {
        assert cells[m].parent == Some(src);
        assert Under(cells, rank, src, src) && Under(cells, rank, m, src);
      } else if cells[m].parent.Some? {
        var p := cells[m].parent.value;
        assert p != src;
        assert Under(cells, rank, m, src) ==> m == src || Under(cells, rank, p, src);
        if Under(cells, rank, p, src) {
          assert Under(cells, rank, m, src);
          UnderRank(cells, rank, p, src);
        }
      }
    }
  }

  lemma MoveKeeps(links: Links, cells: Cells, kids: Kids, rank: Ranks, dst: Ptr, src: Ptr)
    requires IsForest(links, cells, kids, rank) && dst in kids && src in kids && dst in cells && dst != src
    requires kids[dst] == [] && kids[src] != [] && !Under(cells, rank, dst, src)
    ensures Fields(src) in links && Fields(dst) in links
    ensures links[Fields(src)].next in links && links[Fields(src)].prev in links
    ensures IsForest(MovedLinks(links, dst, src), Reparented(cells, kids[src], dst),
                     kids[dst := kids[src]][src := []], LiftedRanks(cells, rank, dst, src))
  {
    hide Down, Up, Rings, AllSiblingIds, Compounds, Ranked, Under, Reparented;
    MovedRings(links, cells, kids, dst, src);
    MovedCells(cells, kids, dst, src);
    MovedRanked(cells, kids, rank, dst, src);
    assert Reparented(cells, kids[src], dst).Keys == cells.Keys by { ReparentedKeys(cells, kids[src], dst); }
  }

  lemma ReparentedKeys(cells: Cells, s: seq<Ptr>, p: Ptr)
    ensures Reparented(cells, s, p).Keys == cells.Keys
  {
  }

  /** An empty compound becomes a scalar, or a compound changes its join flag. */
  lemma RetypeKeeps(links: Links, cells: Cells, kids: Kids, rank: Ranks, n: Ptr, data: Data)
    requires IsForest(links, cells, kids, rank) && n in cells
    requires data.Members? ==> n in kids
    requires data.Scalar? ==> n !in kids || kids[n] == []
    ensures IsForest(if data.Scalar? then links - {Fields(n)} else links, cells[n := cells[n].(data := data)],
                     if data.Scalar? then kids - {n} else kids, rank)
  {
    var l := if data.Scalar? then links - {Fields(n)} else links;
    var kids' := if data.Scalar? then kids - {n} else kids;
    var cells' := cells[n := cells[n].(data := data)];
    forall q | q in kids'
      ensures IsRing(l, q, kids'[q]) && SiblingIds(cells', kids'[q])
    {
      assert IsRing(links, q, kids[q]) && SiblingIds(cells, kids[q]);
      RingFrame(links, l, q, kids[q]);
    }
    forall x | x in cells' && cells'[x].parent.Some?
      ensures cells'[x].parent.value in kids' && x in kids'[cells'[x].parent.value]
    {
      assert x in kids[cells[x].parent.value];
    }
  }

  lemma {:induction false} UnderOrphan(cells: Cells, rank: Ranks, m: Ptr, c: Ptr)
    requires Ranked(cells, rank) && m in cells && c in cells
    ensures Ranked(Orphan(cells, c), rank)
    ensures Under(Orphan(cells, c), rank, m, c) == Under(cells, rank, m, c)
    decreases rank[m]
  {
    if m != c && cells[m].parent.Some? {
      UnderOrphan(cells, rank, cells[m].parent.value, c);
    }
  }

  /** The neighbours of src among its siblings, and its position there. */
  lemma SiblingPosition(links: Links, cells: Cells, kids: Kids, rank: Ranks, dst: Ptr, src: Ptr)
    returns (p: Ptr, k: nat)
    requires Ready(links, cells, kids, rank, dst, src) && cells[src].parent.Some?
    ensures p == cells[src].parent.value && p in kids && k < |kids[p]| && kids[p][k] == src
    ensures p != src && p != dst
    ensures Entry(src) in links && links[Entry(src)] == Ends(At(p, kids[p], k + 2), At(p, kids[p], k))
    ensures links[Entry(src)].prev in links && links[Entry(src)].next in links
    ensures links[Entry(src)].prev != Entry(src) && links[Entry(src)].next != Entry(src)
  {
    p := cells[src].parent.value;
    assert p in kids && src in kids[p];
    k :| 0 <= k < |kids[p]| && kids[p][k] == src;
    RingOf(links, kids, p);
    RingRemove(links, p, kids[p], k);
  }

  /** Handing over the ring and leaving the siblings touch different list_heads, so their order does not matter. */
  lemma RelinkCommutes(links: Links, dst: Ptr, src: Ptr, first: Link, last: Link, prev: Link, next: Link)
    requires Fields(src) in links && Fields(dst) in links && Entry(src) in links && first in links && last in links
    requires links[Fields(src)] == Ends(first, last) && first != Fields(src) && last != Fields(src)
    requires links[Entry(src)] == Ends(next, prev) && prev in links && next in links
    requires prev != Entry(src) && next != Entry(src)
    requires {first, last, Fields(src)} !! {prev, next, Entry(src)}
    ensures Relinked(links, dst, src)[Entry(src)] == links[Entry(src)]
    ensures Removed(links, Entry(src))[Fields(src)] == links[Fields(src)]
    ensures Unlinked(Relinked(links, dst, src), Entry(src)) == Relinked(Removed(links, Entry(src)), dst, src)
  {
  }

  lemma OffRing(cells: Cells, kids: Kids, p: Ptr, src: Ptr, x: Link, k: nat)
    requires Down(cells, kids) && p in kids && src in kids && p != src && InRing(x, src, kids[src])
    ensures x != At(p, kids[p], k) && x != At(p, kids[p], k + 1) && x != At(p, kids[p], k + 2)
  {
    OtherRing(cells, kids, p, src, x, k);
    OtherRing(cells, kids, p, src, x, k + 1);
    OtherRing(cells, kids, p, src, x, k + 2);
  }

  /** The links after the call when the members of src are handed over. */
  lemma HandedOver(links: Links, cells: Cells, kids: Kids, rank: Ranks, dst: Ptr, src: Ptr)
    requires Ready(links, cells, kids, rank, dst, src) && cells[src].parent.Some?
    requires src in kids && dst in kids && kids[src] != []
    ensures Entry(src) in links && links[Entry(src)].prev in links && links[Entry(src)].next in links
    ensures links[Entry(src)].prev != Entry(src) && links[Entry(src)].next != Entry(src)
    ensures var r := Removed(links, Entry(src));
            && Fields(src) in r && Fields(dst) in r && r[Fields(src)].next in r && r[Fields(src)].prev in r
            && Fields(src) in links && links[Fields(src)].next in links && links[Fields(src)].prev in links
            && Fields(dst) in links
            && Unlinked(Relinked(links, dst, src), Entry(src)) == Relinked(r, dst, src)
  {
    var s := kids[src];
    ReadyFacts(links, cells, kids, rank, dst, src);
    var p, k := SiblingPosition(links, cells, kids, rank, dst, src);
    var first, last := Entry(s[0]), Entry(s[|s| - 1]);
    assert links[Fields(src)] == Ends(first, last);
    OffRing(cells, kids, p, src, first, k);
    OffRing(cells, kids, p, src, last, k);
    OffRing(cells, kids, p, src, Fields(src), k);
    RelinkCommutes(links, dst, src, first, last, At(p, kids[p], k), At(p, kids[p], k + 2));
  }

  /** Substituting a scalar. */
  lemma ScalarSound(links: Links, cells: Cells, kids: Kids, rank: Ranks, dst: Ptr, src: Ptr)
    requires IsForest(links, cells, kids, rank) && dst in cells && src in cells && dst != src
    requires cells[src].data.Scalar? && cells[src].parent.None?
    requires dst in kids ==> kids[dst] == []
    ensures IsForest(links - {Fields(dst)} - {Entry(src), Fields(src)},
                     cells[dst := Cell(cells[dst].id, cells[src].data, cells[dst].refcount, cells[dst].parent)] - {src},
                     kids - {src} - {dst}, rank)
  {
    assert src !in kids;
    FreeKeeps(links, cells, kids, rank, src);
    var l, c, k := links - {Entry(src), Fields(src)}, cells - {src}, kids - {src};
    RetypeKeeps(l, c, k, rank, dst, cells[src].data);
    assert l - {Fields(dst)} == links - {Fields(dst)} - {Entry(src), Fields(src)};
    assert c[dst := c[dst].(data := cells[src].data)]
        == cells[dst := Cell(cells[dst].id, cells[src].data, cells[dst].refcount, cells[dst].parent)] - {src};
  }

  /** Substituting a compound with members for a compound. */
  lemma CompoundSound(links: Links, cells: Cells, kids: Kids, rank: Ranks, dst: Ptr, src: Ptr)
    requires IsForest(links, cells, kids, rank) && dst in cells && src in cells && dst != src
    requires dst in kids && src in kids && kids[dst] == [] && kids[src] != []
    requires cells[src].parent.None? && !Under(cells, rank, dst, src)
    ensures Fields(src) in links && Fields(dst) in links
    ensures links[Fields(src)].next in links && links[Fields(src)].prev in links
    ensures cells[src].data.Members? && cells[dst].data.Members?
    ensures var a := Relinked(links, dst, src);
            var c := Reparented(cells, kids[src], dst);
            IsForest(a[Fields(dst) := a[Fields(src)]] - {Entry(src), Fields(src)},
                     c[dst := Cell(cells[dst].id, cells[src].data, cells[dst].refcount, cells[dst].parent)] - {src},
                     kids[dst := kids[src]][src := []] - {src}, LiftedRanks(cells, rank, dst, src))
  {
    NotOwnMember(cells, kids, rank, dst, src);
    ReparentedOutside(cells, kids[src], dst, dst);
    MoveThenFree(links, cells, kids, rank, dst, src);
    assert cells[src].data.Members? && cells[dst].data.Members?;
    hide IsForest, Under, Reparented, Relinked, MovedLinks, LiftedRanks;
    var a1 := MovedLinks(links, dst, src) - {Entry(src), Fields(src)};
    var c := Reparented(cells, kids[src], dst);
    var k1 := kids[dst := kids[src]][src := []] - {src};
    RetypeKeeps(a1, c - {src}, k1, LiftedRanks(cells, rank, dst, src), dst, cells[src].data);
    MovedThenFreed(links, dst, src);
    RetypedThenFreed(c, cells, dst, src);
  }

  lemma MoveThenFree(links: Links, cells: Cells, kids: Kids, rank: Ranks, dst: Ptr, src: Ptr)
    requires IsForest(links, cells, kids, rank) && dst in cells && src in cells && dst != src
    requires dst in kids && src in kids && kids[dst] == [] && kids[src] != []
    requires cells[src].parent.None? && !Under(cells, rank, dst, src)
    ensures Fields(src) in links && Fields(dst) in links
    ensures links[Fields(src)].next in links && links[Fields(src)].prev in links
    ensures IsForest(MovedLinks(links, dst, src) - {Entry(src), Fields(src)}, Reparented(cells, kids[src], dst) - {src},
                     kids[dst := kids[src]][src := []] - {src}, LiftedRanks(cells, rank, dst, src))
  {
    hide Compounds, Allocated, Rings, Down, Up, AllSiblingIds, Ranked, Under, Reparented, Relinked, MovedLinks,
         LiftedRanks;
    HasRank(cells, rank, dst);
    NotOwnMember(cells, kids, rank, dst, src);
    ReparentedOutside(cells, kids[src], dst, src);
    MoveKeeps(links, cells, kids, rank, dst, src);
    FreeKeeps(MovedLinks(links, dst, src), Reparented(cells, kids[src], dst), kids[dst := kids[src]][src := []],
              LiftedRanks(cells, rank, dst, src), src);
  }

  lemma HasRank(cells: Cells, rank: Ranks, n: Ptr)
    requires Ranked(cells, rank) && n in cells
    ensures n in rank
  {
  }

  lemma ReparentedOutside(cells: Cells, s: seq<Ptr>, p: Ptr, m: Ptr)
    requires m in cells && m !in s
    ensures m in Reparented(cells, s, p) && Reparented(cells, s, p)[m] == cells[m]
  {
  }

  lemma MovedThenFreed(links: Links, dst: Ptr, src: Ptr)
    requires Fields(src) in links && Fields(dst) in links
    requires links[Fields(src)].next in links && links[Fields(src)].prev in links
    ensures var b := Relinked(links, dst, src);
            MovedLinks(links, dst, src) - {Entry(src), Fields(src)}
            == b[Fields(dst) := b[Fields(src)]] - {Entry(src), Fields(src)}
  {
  }

  lemma RetypedThenFreed(c: Cells, cells: Cells, dst: Ptr, src: Ptr)
    requires dst in c && dst in cells && src in cells && c[dst] == cells[dst] && dst != src
    ensures (c - {src})[dst := c[dst].(data := cells[src].data)]
         == c[dst := Cell(cells[dst].id, cells[src].data, cells[dst].refcount, cells[dst].parent)] - {src}
  {
  }

  lemma NotOwnMember(cells: Cells, kids: Kids, rank: Ranks, dst: Ptr, src: Ptr)
    requires Ranked(cells, rank) && Down(cells, kids) && src in kids && dst in cells && src in cells
    requires !Under(cells, rank, dst, src)
    ensures src !in kids[src] && dst !in kids[src]
  {
    if dst in kids[src] {
      assert cells[dst].parent == Some(src) && Under(cells, rank, src, src);
    }
  }

  /** Leaving the siblings first changes nothing about what the call finds. */
  lemma DetachedFirst(links: Links, cells: Cells, kids: Kids, rank: Ranks, dst: Ptr, src: Ptr)
    returns (links1: Links, cells1: Cells, kids1: Kids)
    requires Ready(links, cells, kids, rank, dst, src)
    ensures IsForest(links1, cells1, kids1, rank) && cells1 == Orphan(cells, src) && kids1 == Unlisted(cells, kids, src)
    ensures kids1.Keys == kids.Keys
    ensures !Under(cells1, rank, dst, src)
    ensures src in kids ==> kids1[src] == kids[src]
    ensures dst in kids ==> kids1[dst] == []
    ensures Entry(src) in links
    ensures links1 == if cells[src].parent.Some? then Unlinked(links, Entry(src)) else links
  {
    links1, cells1, kids1 := links, Orphan(cells, src), Unlisted(cells, kids, src);
    UnderOrphan(cells, rank, dst, src);
    if cells[src].parent.Some? {
      links1 := DetachedSource(links, cells, kids, rank, dst, src);
    } else {
      assert cells1 == cells;
    }
  }

  lemma DetachedSource(links: Links, cells: Cells, kids: Kids, rank: Ranks, dst: Ptr, src: Ptr) returns (links1: Links)
    requires Ready(links, cells, kids, rank, dst, src) && cells[src].parent.Some?
    ensures IsForest(links1, Orphan(cells, src), Unlisted(cells, kids, src), rank)
    ensures Unlisted(cells, kids, src).Keys == kids.Keys
    ensures src in kids ==> Unlisted(cells, kids, src)[src] == kids[src]
    ensures dst in kids ==> Unlisted(cells, kids, src)[dst] == []
    ensures Entry(src) in links && links1 == Unlinked(links, Entry(src))
  {
    var p, k := SiblingPosition(links, cells, kids, rank, dst, src);
    RingOf(links, kids, p);
    assert dst in kids ==> kids[dst] == [];
    hide IsForest, Under, Unlinked, Removed;
    DetachKeeps(links, cells, kids, rank, p, k);
    DropIsMinus(kids[p], k);
    UnlinkedIsRemoved(links, Entry(src));
    links1 := Removed(links, Entry(src));
  }

  /** The cells after the call, but for the id. */
  ghost function OldIdCells(cells: Cells, kids: Kids, dst: Ptr, src: Ptr): Cells
    requires dst in cells && src in cells
  {
    var a := HandedCells(cells, kids, dst, src);
    a[dst := Cell(cells[dst].id, cells[src].data, cells[dst].refcount, cells[dst].parent)] - {src}
  }

  lemma OldIdSound(links: Links, cells: Cells, kids: Kids, rank: Ranks, dst: Ptr, src: Ptr)
    returns (rank': Ranks)
    requires Ready(links, cells, kids, rank, dst, src) && RingSound(cells, kids, dst, src)
    ensures IsForest(SubstLinks(links, cells, kids, rank, dst, src), OldIdCells(cells, kids, dst, src),
                     SubstKids(cells, kids, dst, src), rank')
  {
    ReadyFacts(links, cells, kids, rank, dst, src);
    var links1: Links, cells1: Cells, kids1: Kids := DetachedFirst(links, cells, kids, rank, dst, src);
    if cells[src].data.Scalar? {
      hide IsForest, Under, Unlinked;
      ScalarSound(links1, cells1, kids1, rank, dst, src);
      assert kids1 - {src} - {dst} == kids1 - {dst};
      rank' := rank;
      SameScalarCells(cells, kids, dst, src);
    } else {
      hide IsForest, Under, Unlinked, Relinked, Reparented, LiftedRanks, Unlisted;
      UnhookedIs(links, cells, kids, rank, dst, src, links1);
      CompoundSound(links1, cells1, kids1, rank, dst, src);
      MovedKids(kids1, dst, src);
      rank' := LiftedRanks(cells1, rank, dst, src);
      SameCompoundCells(cells, kids[src], dst, src);
    }
  }

  lemma MovedKids(kids: Kids, dst: Ptr, src: Ptr)
    requires src in kids && dst != src
    ensures kids[dst := kids[src]][src := []] - {src} == kids[dst := kids[src]] - {src}
  {
  }

  /** Under the condition, there is a forest on what the call leaves. */
  lemma SubstituteSound(links: Links, cells: Cells, kids: Kids, rank: Ranks, dst: Ptr, src: Ptr)
    returns (rank': Ranks)
    requires Ready(links, cells, kids, rank, dst, src) && Sound(cells, kids, dst, src)
    ensures IsForest(SubstLinks(links, cells, kids, rank, dst, src), SubstCells(cells, kids, dst, src),
                     SubstKids(cells, kids, dst, src), rank')
  {
    rank' := OldIdSound(links, cells, kids, rank, dst, src);
    var c, k := OldIdCells(cells, kids, dst, src), SubstKids(cells, kids, dst, src);
    SiblingsKept(links, cells, kids, rank, dst, src, rank');
    assert SubstCells(cells, kids, dst, src) == c[dst := c[dst].(id := cells[src].id)];
    hide *;
    RenameKeeps(SubstLinks(links, cells, kids, rank, dst, src), c, k, rank', dst, cells[src].id);
  }

  lemma SiblingsKept(links: Links, cells: Cells, kids: Kids, rank: Ranks, dst: Ptr, src: Ptr, rank': Ranks)
    requires Ready(links, cells, kids, rank, dst, src) && IdFits(cells, dst, src)
    requires var c, k := OldIdCells(cells, kids, dst, src), SubstKids(cells, kids, dst, src);
             IsForest(SubstLinks(links, cells, kids, rank, dst, src), c, k, rank')
    ensures var c, k := OldIdCells(cells, kids, dst, src), SubstKids(cells, kids, dst, src);
            && dst in c
            && (c[dst].parent.Some? ==>
                  && cells[src].id.Some? && c[dst].parent.value in k
                  && forall m | m in k[c[dst].parent.value] && m != dst :: m in c && c[m].id != cells[src].id)
  {
    hide Under, Rings, AllSiblingIds, Compounds, Allocated, SubstLinks, SubstKids;
    var c, k := OldIdCells(cells, kids, dst, src), SubstKids(cells, kids, dst, src);
    if c[dst].parent.Some? {
      var p := c[dst].parent.value;
      forall m | m in k[p] && m != dst
        ensures m in c && c[m].id != cells[src].id
      {
        assert c[m].parent == Some(p);
        SiblingOld(cells, kids, dst, src, m, p);
      }
    }
  }

  /** A sibling after the call was one before, under the same id. */
  lemma SiblingOld(cells: Cells, kids: Kids, dst: Ptr, src: Ptr, m: Ptr, p: Ptr)
    requires dst in cells && src in cells && m in OldIdCells(cells, kids, dst, src) && m != dst
    requires OldIdCells(cells, kids, dst, src)[m].parent == Some(p) && p != dst
    ensures m in cells && m != src && cells[m].parent == Some(p)
    ensures OldIdCells(cells, kids, dst, src)[m].id == cells[m].id
  {
  }

  /** Handing over after leaving the siblings gives what handing over before does. */
  lemma UnhookedIs(links: Links, cells: Cells, kids: Kids, rank: Ranks, dst: Ptr, src: Ptr, links1: Links)
    requires Ready(links, cells, kids, rank, dst, src) && RingSound(cells, kids, dst, src) && cells[src].data.Members?
    requires Entry(src) in links
    requires links1 == if cells[src].parent.Some? then Unlinked(links, Entry(src)) else links
    ensures src in kids && dst in kids
    ensures Fields(src) in links1 && Fields(dst) in links1
    ensures links1[Fields(src)].next in links1 && links1[Fields(src)].prev in links1
    ensures UnhookedLinks(links, cells, kids, rank, dst, src) == Relinked(links1, dst, src)
  {
    ReadyFacts(links, cells, kids, rank, dst, src);
    if cells[src].parent.Some? {
      HandedOver(links, cells, kids, rank, dst, src);
      UnlinkedIsRemoved(links, Entry(src));
    }
  }

  lemma SameScalarCells(cells: Cells, kids: Kids, dst: Ptr, src: Ptr)
    requires dst in cells && src in cells && dst != src && cells[src].data.Scalar?
    ensures OldIdCells(cells, kids, dst, src)
         == Orphan(cells, src)[dst := Cell(cells[dst].id, cells[src].data, cells[dst].refcount, cells[dst].parent)] - {src}
  {
  }

  lemma SameCompoundCells(cells: Cells, s: seq<Ptr>, dst: Ptr, src: Ptr)
    requires dst in cells && src in cells && dst != src
    ensures Reparented(cells, s,
                       dst)[dst := Cell(cells[dst].id, cells[src].data, cells[dst].refcount, cells[dst].parent)] - {src}
         == Reparented(Orphan(cells, src), s, dst)[dst := Cell(cells[dst].id, cells[src].data, cells[dst].refcount, cells[dst].parent)] - {src}
  {
  }

  /**
   snd_config_substitute leaves a forest exactly when the source is a scalar, or both are compounds and it has
   members, and its id fits.
   */
  lemma SubstituteIff(links: Links, cells: Cells, kids: Kids, rank: Ranks, dst: Ptr, src: Ptr)
    requires Ready(links, cells, kids, rank, dst, src)
    ensures (exists kids', rank' ::
               IsForest(SubstLinks(links, cells, kids, rank, dst, src), SubstCells(cells, kids, dst, src), kids',
                        rank'))
            <==> Sound(cells, kids, dst, src)
  {
    if Sound(cells, kids, dst, src) {
      var rank' := SubstituteSound(links, cells, kids, rank, dst, src);
    } else {
      forall kids', rank'
        ensures !IsForest(SubstLinks(links, cells, kids, rank, dst, src), SubstCells(cells, kids, dst, src), kids',
                          rank')
      {
        SubstituteCorrupts(links, cells, kids, rank, dst, src, kids', rank');
      }
    }
  }
}
