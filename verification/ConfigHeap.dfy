/** The operations on configuration nodes in memory (conf.c:1126-1182, 1918-1942, 2152-2250, 2359-2462). */
module ConfigHeap {
  import opened Numbers
  import opened Ring
  import opened Forest
  import opened Substitution

  datatype Errno = EINVAL | EEXIST

  class Heap {
    const mem: LinkMemory
    var cells: Cells
    var brk: Ptr
    ghost var kids: Kids
    ghost var rank: Ranks

    ghost predicate Valid()
      reads this, mem
    {
      IsForest(mem.links, cells, kids, rank) && forall p | p in cells :: p < brk
    }

    constructor ()
      ensures Valid() && fresh(mem) && cells == map[]
    {
      mem := new LinkMemory();
      cells, brk, kids, rank := map[], 0, map[], map[];
    }

    /** _snd_config_make: a node without parent; a compound starts with an empty ring. */
    method Make(id: Option<string>, data: Data) returns (n: Ptr)
      requires Valid()
      modifies this, mem
      ensures Valid()
      ensures n !in old(cells) && cells == old(cells)[n := Cell(id, data, 0, None)]
      ensures kids == if data.Members? then old(kids)[n := []] else old(kids)
      ensures rank == old(rank)[n := 0]
    {
      n := brk;
      MakeKeeps(mem.links, cells, kids, rank, n, id, data);
      brk := brk + 1;
      mem.links := mem.links[Entry(n) := Ends(Entry(n), Entry(n))];
      if data.Members? {
        mem.links := mem.links[Fields(n) := Ends(Fields(n), Fields(n))];
        kids := kids[n := []];
      }
      cells := cells[n := Cell(id, data, 0, None)];
      rank := rank[n := 0];
    }

    /** The loop over the members of p that compares ids, skipping one node. */
    method FindChild(p: Ptr, id: string, except: Option<Ptr>) returns (r: Option<Ptr>)
      requires Valid() && p in kids
      ensures r.Some? ==> r.value in kids[p] && cells[r.value].id == Some(id) && r != except
      ensures r.None? ==> forall c | c in kids[p] && Some(c) != except :: cells[c].id != Some(id)
    {
      ghost var s := kids[p];
      RingOf(mem.links, kids, p);
      assert Linked(mem.links, p, s, 0);
      var pos := mem.links[Fields(p)].next;
      ghost var i := 0;
      while pos != Fields(p)
        invariant 0 <= i <= |s| && pos == At(p, s, i + 1)
        invariant forall j :: 0 <= j < i && Some(s[j]) != except ==> cells[s[j]].id != Some(id)
        decreases |s| - i
      {
        assert s[i] in s;
        if Some(pos.p) != except && cells[pos.p].id == Some(id) {
          return Some(pos.p);
        }
        assert Linked(mem.links, p, s, i + 1);
        pos := mem.links[pos].next;
        i := i + 1;
      }
      return None;
    }

    /** Linking a checked node between two neighbours of the ring of p. */
    method Link(p: Ptr, c: Ptr, prev: Link, next: Link, ghost k: nat)
      requires Valid() && p in kids && k <= |kids[p]| && p in cells
      requires prev == At(p, kids[p], k) && next == At(p, kids[p], k + 1)
      requires c in cells && cells[c].parent.None? && cells[c].id.Some? && IdFree(cells, kids[p], cells[c].id)
      requires !Under(cells, rank, p, c)
      modifies this, mem
      ensures Valid()
      ensures cells == Adopt(old(cells), c, p) && kids == old(kids)[p := Insert(old(kids)[p], k, c)]
      ensures rank == Raised(old(cells), old(rank), c, p)
    {
      AttachKeeps(mem.links, cells, kids, rank, p, k, c);
      ghost var rank' := Raised(cells, rank, c, p);
      mem.ListInsert(Entry(c), prev, next);
      cells := cells[c := cells[c].(parent := Some(p))];
      kids := kids[p := Insert(kids[p], k, c)];
      rank := rank';
    }

    /** The same at the end of the ring, with list_add_tail. */
    method LinkLast(p: Ptr, c: Ptr)
      requires Valid() && p in kids && p in cells
      requires c in cells && cells[c].parent.None? && cells[c].id.Some? && IdFree(cells, kids[p], cells[c].id)
      requires !Under(cells, rank, p, c)
      modifies this, mem
      ensures Valid()
      ensures cells == Adopt(old(cells), c, p) && kids == old(kids)[p := old(kids)[p] + [c]]
      ensures rank == Raised(old(cells), old(rank), c, p)
    {
      ghost var s := kids[p];
      RingOf(mem.links, kids, p);
      assert Linked(mem.links, p, s, |s|);
      assert Insert(s, |s|, c) == s + [c];
      AttachKeeps(mem.links, cells, kids, rank, p, |s|, c);
      ghost var rank' := Raised(cells, rank, c, p);
      mem.ListAddTail(Entry(c), Fields(p));
      cells := cells[c := cells[c].(parent := Some(p))];
      kids := kids[p := s + [c]];
      rank := rank';
    }

    /** What snd_config_add and its variants check before linking. */
    method CheckNew(p: Ptr, c: Ptr) returns (e: Option<Errno>)
      requires Valid() && p in kids && c in cells
      ensures e == Some(EINVAL) <==> cells[c].id.None? || cells[c].parent.Some?
      ensures e == Some(EEXIST) <==>
                && cells[c].id.Some? && cells[c].parent.None?
                && exists m :: m in kids[p] && cells[m].id == cells[c].id
      ensures e.None? ==> cells[c].parent.None? && cells[c].id.Some? && IdFree(cells, kids[p], cells[c].id)
    {
      if cells[c].id.None? || cells[c].parent.Some? {
        return Some(EINVAL);
      }
      var f := FindChild(p, cells[c].id.value, None);
      return if f.Some? then Some(EEXIST) else None;
    }

    /** snd_config_add: behind the last member. */
    method Add(p: Ptr, c: Ptr) returns (e: Option<Errno>)
      requires Valid() && p in kids && p in cells && c in cells
      requires cells[c].id.Some? && cells[c].parent.None? ==> !Under(cells, rank, p, c)
      modifies this, mem
      ensures Valid()
      ensures e == Some(EINVAL) <==> old(cells)[c].id.None? || old(cells)[c].parent.Some?
      ensures e == Some(EEXIST) <==>
                && old(cells)[c].id.Some? && old(cells)[c].parent.None?
                && exists m :: m in old(kids)[p] && old(cells)[m].id == old(cells)[c].id
      ensures e.Some? ==> cells == old(cells) && kids == old(kids) && mem.links == old(mem.links)
      ensures e.None? ==> cells == Adopt(old(cells), c, p) && kids == old(kids)[p := old(kids)[p] + [c]]
    {
      e := CheckNew(p, c);
      if e.None? {
        LinkLast(p, c);
      }
    }

    /** snd_config_add_after and snd_config_add_before: next to the k-th member. */
    method AddNextTo(sibling: Ptr, c: Ptr, after: bool, ghost k: nat) returns (e: Option<Errno>)
      requires Valid() && sibling in cells && cells[sibling].parent.Some? && c in cells
      requires cells[sibling].parent.value in cells
      requires cells[c].id.Some? && cells[c].parent.None? ==> !Under(cells, rank, cells[sibling].parent.value, c)
      requires cells[sibling].parent.value in kids
      requires var s := kids[cells[sibling].parent.value]; k < |s| && s[k] == sibling
      modifies this, mem
      ensures Valid()
      ensures e.Some? ==> cells == old(cells) && kids == old(kids) && mem.links == old(mem.links)
      ensures var p := old(cells)[sibling].parent.value;
              && (e == Some(EINVAL) <==> old(cells)[c].id.None? || old(cells)[c].parent.Some?)
              && (e == Some(EEXIST) <==>
                    && old(cells)[c].id.Some? && old(cells)[c].parent.None?
                    && exists m :: m in old(kids)[p] && old(cells)[m].id == old(cells)[c].id)
              && (e.None? ==>
                    && cells == Adopt(old(cells), c, p)
                    && kids == old(kids)[p := Insert(old(kids)[p], if after then k + 1 else k, c)])
    {
      var p := cells[sibling].parent.value;
      e := CheckNew(p, c);
      if e.None? {
        ghost var s := kids[p];
        RingOf(mem.links, kids, p);
        assert Linked(mem.links, p, s, k) && Linked(mem.links, p, s, k + 1);
        if after {
          Link(p, c, Entry(sibling), mem.links[Entry(sibling)].next, k + 1);
        } else {
          Link(p, c, mem.links[Entry(sibling)].prev, Entry(sibling), k);
        }
      }
    }

    /** snd_config_remove: out of the ring, but not freed. */
    method Remove(n: Ptr, ghost k: nat)
      requires Valid() && n in cells
      requires cells[n].parent.Some? ==>
                 && cells[n].parent.value in kids
                 && var s := kids[cells[n].parent.value];
                 k < |s| && s[k] == n
      modifies this, mem
      ensures Valid() && rank == old(rank)
      ensures cells == Orphan(old(cells), n)
      ensures old(cells)[n].parent.None? ==> kids == old(kids) && mem.links == old(mem.links)
      ensures old(cells)[n].parent.Some? ==>
                var p := old(cells)[n].parent.value;
                kids == old(kids)[p := Drop(old(kids)[p], k)]
    {
      if cells[n].parent.Some? {
        ghost var p := cells[n].parent.value;
        DetachKeeps(mem.links, cells, kids, rank, p, k);
        mem.ListDel(Entry(n));
        cells := cells[n := cells[n].(parent := None)];
        kids := kids[p := Drop(kids[p], k)];
      } else {
        cells := cells[n := cells[n].(parent := None)];
        assert cells == old(cells);
      }
    }

    /** snd_config_set_id */
    method SetId(n: Ptr, id: Option<string>) returns (e: Option<Errno>)
      requires Valid() && n in cells
      modifies this
      ensures Valid() && kids == old(kids) && rank == old(rank)
      ensures e == Some(EINVAL) <==> id.None? && old(cells)[n].parent.Some?
      ensures e == Some(EEXIST) <==>
                && id.Some? && old(cells)[n].parent.Some? && old(cells)[n].parent.value in kids
                && exists m :: m in kids[old(cells)[n].parent.value] && m != n && old(cells)[m].id == id
      ensures cells == if e.Some? then old(cells) else old(cells)[n := old(cells)[n].(id := id)]
    {
      if cells[n].parent.Some? {
        if id.None? {
          return Some(EINVAL);
        }
        var f := FindChild(cells[n].parent.value, id.value, Some(n));
        if f.Some? {
          return Some(EEXIST);
        }
      }
      RenameKeeps(mem.links, cells, kids, rank, n, id);
      cells := cells[n := cells[n].(id := id)];
      return None;
    }

    /** A new value for a scalar, as snd_config_set_integer and its kin give, or a new join flag for a compound. */
    method SetData(n: Ptr, data: Data)
      requires Valid() && n in cells && data.Members? == cells[n].data.Members?
      modifies this
      ensures Valid() && kids == old(kids) && rank == old(rank)
      ensures cells == old(cells)[n := old(cells)[n].(data := data)]
    {
      SetDataKeeps(mem.links, cells, kids, rank, n, data);
      cells := cells[n := cells[n].(data := data)];
    }

    /** free(config), once nothing points at it. */
    method Free(n: Ptr)
      requires Valid() && n in cells && cells[n].parent.None? && (n in kids ==> kids[n] == [])
      modifies this, mem
      ensures Valid() && rank == old(rank)
      ensures cells == old(cells) - {n} && kids == old(kids) - {n}
    {
      FreeKeeps(mem.links, cells, kids, rank, n);
      mem.links := mem.links - {Entry(n), Fields(n)};
      cells := cells - {n};
      kids := kids - {n};
    }

    /** snd_config_delete: exactly the subtree goes, each node of it once, and the ring of the parent closes. */
    method Delete(n: Ptr, ghost k: nat)
      requires Valid() && n in cells
      requires cells[n].refcount == 0 ==> forall m | m in Below(cells, rank, n) :: cells[m].refcount == 0
      requires cells[n].parent.Some? ==>
                 && cells[n].parent.value in kids
                 && var s := kids[cells[n].parent.value];
                 k < |s| && s[k] == n
      modifies this, mem
      ensures Valid() && rank == old(rank)
      ensures old(cells)[n].refcount > 0 ==>
                && cells == old(cells)[n := old(cells)[n].(refcount := old(cells)[n].refcount - 1)]
                && kids == old(kids) && mem.links == old(mem.links)
      ensures old(cells)[n].refcount == 0 ==>
                && cells == old(cells) - Below(old(cells), old(rank), n)
                && kids == WithoutMember(old(kids), old(cells)[n].parent, k) - Below(old(cells), old(rank), n)
      decreases Below(cells, rank, n), 2
    {
      hide Compounds, Allocated, Rings, Down, Up, AllSiblingIds, Ranked, Under;
      if cells[n].refcount > 0 {
        RecountKeeps(mem.links, cells, kids, rank, n, cells[n].refcount - 1);
        cells := cells[n := cells[n].(refcount := cells[n].refcount - 1)];
        return;
      }
      ghost var below := Below(cells, rank, n);
      SelfBelow(mem.links, cells, kids, rank, n);
      if cells[n].data.Members? {
        DeleteMembers(n);
      }
      assert cells == old(cells) - (below - {n});
      Remove(n, k);
      Free(n);
    }

    /**
     The loop of snd_config_delete and snd_config_delete_compound_members, which keeps the next entry while one goes.
     */
    method DeleteMembers(n: Ptr)
      requires Valid() && n in cells && n in kids
      requires forall m | m in Below(cells, rank, n) && m != n :: cells[m].refcount == 0
      modifies this, mem
      ensures Valid() && rank == old(rank)
      ensures cells == old(cells) - (Below(old(cells), old(rank), n) - {n})
      ensures kids == (old(kids) - (Below(old(cells), old(rank), n) - {n}))[n := []]
      decreases Below(cells, rank, n), 1
    {
      hide Compounds, Allocated, Rings, Down, Up, AllSiblingIds, Ranked, Under, Below, BelowFirst;
      ghost var s, i := kids[n], 0;
      RingOf(mem.links, kids, n);
      assert Linked(mem.links, n, s, 0) && s[0..] == s;
      BelowAll(cells, kids, rank, n);
      BelowNone(cells, rank, s);
      assert cells - {} == cells && (kids - {})[n := s] == kids;
      var pos := mem.links[Fields(n)].next;
      while pos != Fields(n)
        invariant Valid() && rank == old(rank) && n in cells
        invariant 0 <= i <= |s| && pos == At(n, s[i..], 1)
        invariant cells == old(cells) - BelowFirst(old(cells), rank, s, i)
        invariant kids == (old(kids) - BelowFirst(old(cells), rank, s, i))[n := s[i..]]
        decreases |s| - i
      {
        var c := pos.p;
        assert c == s[i..][0] == s[i] && c in s[i..];
        RingOf(mem.links, kids, n);
        assert Linked(mem.links, n, s[i..], 1);
        var nexti := mem.links[pos].next;
        MemberOf(cells, kids, n, c);
        SelfBelow(mem.links, cells, kids, rank, c);
        MemberSmaller(old(cells), cells, rank, c, n);
        assert forall m | m in Below(cells, rank, c) :: cells[m].refcount == 0;
        BelowNext(old(cells), cells, rank, s, i);
        ghost var gone, next := BelowFirst(old(cells), rank, s, i), Below(cells, rank, c);
        MinusTwice(old(cells), gone, next);
        KidsMinus(old(kids), gone, next, n, s[i..], s[i + 1..]);
        assert Drop(s[i..], 0) == s[i + 1..];
        Delete(c, 0);
        pos := nexti;
        i := i + 1;
      }
      assert s[i..] == [];
    }

    /** Every member of src gets dst as its parent. */
    method Reparent(dst: Ptr, src: Ptr)
      requires src in kids && IsRing(mem.links, src, kids[src]) && dst in cells
      requires forall m | m in kids[src] :: m in cells
      modifies this`cells
      ensures cells == Reparented(old(cells), kids[src], dst)
    {
      ghost var s, i := kids[src], 0;
      assert Linked(mem.links, src, s, 0);
      var pos := mem.links[Fields(src)].next;
      while pos != Fields(src)
        invariant 0 <= i <= |s| && pos == At(src, s, i + 1)
        invariant cells == Reparented(old(cells), s[..i], dst)
        decreases |s| - i
      {
        assert s[i] in s && Linked(mem.links, src, s, i + 1);
        assert s[..i + 1] == s[..i] + [s[i]];
        cells := cells[pos.p := cells[pos.p].(parent := Some(dst))];
        pos := mem.links[pos].next;
        i := i + 1;
      }
      assert s[..i] == s;
    }

    /** snd_config_substitute, once dst has no members: the assignments in their order. */
    method TakeOver(dst: Ptr, src: Ptr)
      requires Valid() && Ready(mem.links, cells, kids, rank, dst, src) && Sound(cells, kids, dst, src)
      modifies this, mem
      ensures Valid()
      ensures mem.links == SubstLinks(old(mem.links), old(cells), old(kids), old(rank), dst, src)
      ensures cells == SubstCells(old(cells), old(kids), dst, src) && kids == SubstKids(old(cells), old(kids), dst, src)
    {
      ghost var rank' := SubstituteSound(mem.links, cells, kids, rank, dst, src);
      ghost var kids' := SubstKids(cells, kids, dst, src);
      var from, to := cells[src], cells[dst];
      Unhook(dst, src);
      hide IsForest, Ready, Sound, UnhookedLinks, HandedCells;
      if from.data.Members? {
        mem.links := mem.links[Fields(dst) := mem.links[Fields(src)]];
      } else {
        mem.links := mem.links - {Fields(dst)};
      }
      cells := cells[dst := Cell(from.id, from.data, to.refcount, to.parent)];
      mem.links := mem.links - {Entry(src), Fields(src)};
      cells := cells - {src};
      kids, rank := kids', rank';
    }

    /** snd_config_substitute: the members of dst go first. */
    method Substitute(dst: Ptr, src: Ptr)
      requires Valid() && dst in cells && src in cells && dst != src
      requires !Under(cells, rank, dst, src) && !Under(cells, rank, src, dst)
      requires Sound(cells, kids, dst, src)
      requires forall m | m in Below(cells, rank, dst) && m != dst :: cells[m].refcount == 0
      modifies this, mem
      ensures Valid()
      ensures dst in old(cells) - (Below(old(cells), old(rank), dst) - {dst})
      ensures src in old(cells) - (Below(old(cells), old(rank), dst) - {dst})
      ensures var gone := Below(old(cells), old(rank), dst) - {dst};
              && cells == SubstCells(old(cells) - gone, Emptied(old(kids), gone, dst), dst, src)
              && kids == SubstKids(old(cells) - gone, Emptied(old(kids), gone, dst), dst, src)
    {
      hide Compounds, Allocated, Rings, Down, Up, AllSiblingIds, Ranked, Under, Reparented;
      ghost var gone := Below(cells, rank, dst) - {dst};
      SelfBelow(mem.links, cells, kids, rank, dst);
      NotBelow(cells, rank, src, dst);
      if cells[dst].data.Members? {
        DeleteMembers(dst);
      }
      assert cells == old(cells) - gone && kids == Emptied(old(kids), gone, dst);
      StillSound(old(cells), cells, old(kids), kids, dst, src);
      StillApart(old(cells), cells, rank, dst, src);
      StillMembers(old(mem.links), old(cells), mem.links, cells, old(kids), kids, rank, src, gone);
      TakeOver(dst, src);
    }

    /** Handing over the members, where there are two compounds, and leaving the ring of the siblings. */
    method Unhook(dst: Ptr, src: Ptr)
      requires Valid() && Ready(mem.links, cells, kids, rank, dst, src) && Sound(cells, kids, dst, src)
      modifies this`cells, mem
      ensures mem.links == UnhookedLinks(old(mem.links), old(cells), kids, rank, dst, src)
      ensures cells == HandedCells(old(cells), kids, dst, src)
    {
      ReadyFacts(mem.links, cells, kids, rank, dst, src);
      hide IsForest, Ready, Sound, Reparented, Relinked, Unlinked;
      var linked := cells[src].parent.Some?;
      if cells[dst].data.Members? && cells[src].data.Members? {
        HandOver(dst, src);
      }
      if linked {
        UnlinkSafe(old(mem.links), old(cells), kids, rank, dst, src);
        UnlinkedIsRemoved(mem.links, Entry(src));
        mem.ListDel(Entry(src));
      }
    }

    /** The members of src go to dst, which is empty. */
    method HandOver(dst: Ptr, src: Ptr)
      requires Valid() && Ready(mem.links, cells, kids, rank, dst, src) && src in kids && dst in kids
      modifies this`cells, mem
      ensures Fields(src) in old(mem.links) && Fields(dst) in old(mem.links)
      ensures old(mem.links)[Fields(src)].next in old(mem.links) && old(mem.links)[Fields(src)].prev in old(mem.links)
      ensures mem.links == Relinked(old(mem.links), dst, src)
      ensures cells == Reparented(old(cells), kids[src], dst)
    {
      ReadyFacts(mem.links, cells, kids, rank, dst, src);
      MembersLive(mem.links, cells, kids, rank, src);
      hide IsForest, Ready, IsRing, Reparented;
      Reparent(dst, src);
      mem.SetPrev(mem.links[Fields(src)].next, Fields(dst));
      mem.SetNext(mem.links[Fields(src)].prev, Fields(dst));
    }
  }

  lemma SetDataKeeps(links: Links, cells: Cells, kids: Kids, rank: Ranks, n: Ptr, data: Data)
    requires IsForest(links, cells, kids, rank) && n in cells && data.Members? == cells[n].data.Members?
    ensures IsForest(links, cells[n := cells[n].(data := data)], kids, rank)
  {
    assert n in kids <==> data.Members?;
    assert data.Scalar? ==> links - {Fields(n)} == links && kids - {n} == kids;
    hide IsForest;
    RetypeKeeps(links, cells, kids, rank, n, data);
  }

  lemma ErrnoCases(e: Option<Errno>)
    ensures e == None || e == Some(EINVAL) || e == Some(EEXIST)
  {
    match e
    case None =>
    case Some(x) => assert x == EINVAL || x == EEXIST;
  }

  /** The member lists once dst has no members and those below it are gone. */
  ghost function Emptied(kids: Kids, gone: set<Ptr>, dst: Ptr): Kids {
    if dst in kids then (kids - gone)[dst := []] else kids - gone
  }

  lemma StillSound(cells: Cells, cells': Cells, kids: Kids, kids': Kids, dst: Ptr, src: Ptr)
    requires dst in cells' && src in cells' && (forall x | x in cells' :: x in cells && cells'[x] == cells[x])
    requires dst in cells && src in cells && Sound(cells, kids, dst, src)
    requires src in kids ==> src in kids' && kids'[src] == kids[src]
    ensures Sound(cells', kids', dst, src)
  {
  }

  lemma NotBelow(cells: Cells, rank: Ranks, m: Ptr, n: Ptr)
    requires Ranked(cells, rank) && m in cells && !Under(cells, rank, m, n)
    ensures m !in Below(cells, rank, n)
  {
  }

  lemma StillApart(cells: Cells, cells': Cells, rank: Ranks, a: Ptr, b: Ptr)
    requires Ranked(cells, rank) && Ranked(cells', rank) && a in cells' && b in cells' && a in cells && b in cells
    requires forall x | x in cells' :: x in cells && cells'[x] == cells[x]
    requires !Under(cells, rank, a, b) && !Under(cells, rank, b, a)
    ensures !Under(cells', rank, a, b) && !Under(cells', rank, b, a)
  {
    UnderFrame(cells, cells', rank, a, b);
    UnderFrame(cells, cells', rank, b, a);
  }

  /** Which of two forests, one cut out of the other, a node has members in. */
  lemma StillMembers(links: Links, cells: Cells, links': Links, cells': Cells, kids: Kids, kids': Kids,
                     rank: Ranks, n: Ptr, gone: set<Ptr>)
    requires IsForest(links, cells, kids, rank) && IsForest(links', cells', kids', rank)
    requires n in cells && n in cells' && cells'[n] == cells[n]
    ensures n in kids <==> n in kids'
  {
  }

  lemma MembersLive(links: Links, cells: Cells, kids: Kids, rank: Ranks, p: Ptr)
    requires IsForest(links, cells, kids, rank) && p in kids
    ensures forall m | m in kids[p] :: m in cells
  {
  }

  /** src can leave its ring before or after its own members have been handed over. */
  lemma UnlinkSafe(links: Links, cells: Cells, kids: Kids, rank: Ranks, dst: Ptr, src: Ptr)
    requires Ready(links, cells, kids, rank, dst, src) && Sound(cells, kids, dst, src) && cells[src].parent.Some?
    ensures cells[src].data.Members? ==>
              && Fields(src) in links && Fields(dst) in links
              && links[Fields(src)].next in links && links[Fields(src)].prev in links
    ensures var a := if BothCompounds(cells, dst, src) then Relinked(links, dst, src) else links;
            && Entry(src) in a && a[Entry(src)].prev in a && a[Entry(src)].next in a
            && a[Entry(src)].prev != Entry(src) && a[Entry(src)].next != Entry(src)
  {
    ReadyFacts(links, cells, kids, rank, dst, src);
    var p, k := SiblingPosition(links, cells, kids, rank, dst, src);
    if BothCompounds(cells, dst, src) {
      var s := kids[src];
      OffRing(cells, kids, p, src, Entry(s[0]), k);
      OffRing(cells, kids, p, src, Entry(s[|s| - 1]), k);
    }
  }

  lemma MinusTwice<T>(m: map<Ptr, T>, a: set<Ptr>, b: set<Ptr>)
    ensures m - a - b == m - (a + b)
  {
  }

  lemma KidsMinus(m: Kids, a: set<Ptr>, b: set<Ptr>, n: Ptr, s: seq<Ptr>, t: seq<Ptr>)
    requires n !in b
    ensures (m - a)[n := s][n := t] - b == (m - (a + b))[n := t]
  {
  }

  /** The member lists with the k-th member of the parent, if there is one, taken out. */
  ghost function WithoutMember(kids: Kids, parent: Option<Ptr>, k: nat): Kids
  {
    match parent
    case None => kids
    case Some(p) => if p in kids && k < |kids[p]| then kids[p := Drop(kids[p], k)] else kids
  }

  /** A node is below itself, its parent is not, and a scalar is alone there. */
  lemma SelfBelow(links: Links, cells: Cells, kids: Kids, rank: Ranks, n: Ptr)
    requires IsForest(links, cells, kids, rank) && n in cells
    ensures n in Below(cells, rank, n)
    ensures cells[n].parent.Some? ==> cells[n].parent.value !in Below(cells, rank, n)
    ensures n in kids <==> cells[n].data.Members?
    ensures n !in kids ==> Below(cells, rank, n) == {n}
  {
    if cells[n].parent.Some? {
      ParentOutside(cells, rank, n);
    }
    if n !in kids {
      forall m | m in Below(cells, rank, n)
        ensures m == n
      {
        if m != n {
          var c := UnderViaChild(cells, rank, m, n);
        }
      }
    }
  }

  // ----- whole states

  datatype State = State(links: Links, cells: Cells, kids: Kids, rank: Ranks)

  ghost predicate Good(s: State) {
    IsForest(s.links, s.cells, s.kids, s.rank)
  }
}
