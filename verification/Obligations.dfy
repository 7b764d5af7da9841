/** Why callers owe what they owe: without it the calls leave no forest behind. */
module Obligations {
  import opened Numbers
  import opened Ring
  import opened Forest
  import opened ConfigHeap
  import opened Substitution
  import opened HeapTree
  import opened HeapMerging
  import opened HeapFrame

  /** Some assignment of members and ranks makes the memory a forest. */
  ghost predicate SomeForest(links: Links, cells: Cells) {
    exists kids, rank :: IsForest(links, cells, kids, rank)
  }

  // ----- adding a node below itself

  lemma {:induction false} RankAbove(cells: Cells, rank: Ranks, cells': Cells, rank': Ranks, m: Ptr, n: Ptr)
    requires Ranked(cells, rank) && Ranked(cells', rank') && m in cells && n in cells && Under(cells, rank, m, n)
    requires cells'.Keys == cells.Keys && forall x | x in cells && x != n :: cells'[x].parent == cells[x].parent
    ensures m in rank' && n in rank' && rank'[n] <= rank'[m]
    decreases rank[m]
  {
    if m != n {
      RankAbove(cells, rank, cells', rank', cells[m].parent.value, n);
    }
  }

  /** Linking a root below p keeps the forest exactly when p is not below it. */
  lemma AddIff(s: State, p: Ptr, k: nat, n: Ptr)
    requires Good(s) && p in s.cells && p in s.kids && k <= |s.kids[p]|
    requires n in s.cells && s.cells[n].parent.None? && s.cells[n].id.Some? && IdFree(s.cells, s.kids[p], s.cells[n].id)
    ensures Entry(n) in s.links && At(p, s.kids[p], k) in s.links && At(p, s.kids[p], k + 1) in s.links
    ensures Entry(n) != At(p, s.kids[p], k) && Entry(n) != At(p, s.kids[p], k + 1)
    ensures !Under(s.cells, s.rank, p, n) <==>
              SomeForest(Inserted(s.links, Entry(n), At(p, s.kids[p], k), At(p, s.kids[p], k + 1)),
                         Adopt(s.cells, n, p))
  {
    AttachRings(s.links, s.cells, s.kids, p, k, n);
    var l := Inserted(s.links, Entry(n), At(p, s.kids[p], k), At(p, s.kids[p], k + 1));
    if Under(s.cells, s.rank, p, n) {
      forall kids', rank'
        ensures !IsForest(l, Adopt(s.cells, n, p), kids', rank')
      {
        if IsForest(l, Adopt(s.cells, n, p), kids', rank') {
          RankAbove(s.cells, s.rank, Adopt(s.cells, n, p), rank', p, n);
        }
      }
    } else {
      AttachKeeps(s.links, s.cells, s.kids, s.rank, p, k, n);
      assert IsForest(l, Adopt(s.cells, n, p), s.kids[p := Insert(s.kids[p], k, n)], Raised(s.cells, s.rank, n, p));
    }
  }

  // ----- deleting what somebody else holds

  /** From m up to n nobody holds a reference, so that deleting n comes to m. */
  ghost predicate Reached(s: State, m: Ptr, n: Ptr)
    requires Good(s) && m in s.cells
    decreases s.rank[m]
  {
    s.cells[m].refcount == 0 && (m == n || (s.cells[m].parent.Some? && Reached(s, s.cells[m].parent.value, n)))
  }

  /** What snd_config_delete frees: it stops at a node with references, which only loses one. */
  ghost function Freed(s: State, n: Ptr): set<Ptr>
    requires Good(s)
  {
    set m | m in s.cells && Reached(s, m, n)
  }

  lemma {:induction false} ReachedUnder(s: State, m: Ptr, n: Ptr)
    requires Good(s) && m in s.cells && Reached(s, m, n)
    ensures Under(s.cells, s.rank, m, n)
    decreases s.rank[m]
  {
    if m != n {
      ReachedUnder(s, s.cells[m].parent.value, n);
    }
  }

  lemma {:induction false} AllReached(s: State, m: Ptr, n: Ptr)
    requires Good(s) && n in s.cells && ZeroBelow(s, n) && s.cells[n].refcount == 0 && m in Below(s.cells, s.rank, n)
    ensures Reached(s, m, n)
    decreases s.rank[m]
  {
    if m != n {
      AllReached(s, s.cells[m].parent.value, n);
    }
  }

  /** What it only takes a reference from: the nodes with references that it comes to. */
  ghost predicate Lowered(s: State, m: Ptr, n: Ptr)
    requires Good(s)
  {
    && m in s.cells && s.cells[m].refcount > 0
    && (m == n || (s.cells[m].parent.Some? && Reached(s, s.cells[m].parent.value, n)))
  }

  /** snd_config_delete as it recurses; the members are those at the start, since next is read before a member goes. */
  ghost function DeleteCells(s: State, cells: Cells, n: Ptr): Cells
    requires Good(s) && n in s.cells
    decreases Below(s.cells, s.rank, n), 1
  {
    if n !in cells then cells
    else if cells[n].refcount > 0 then cells[n := cells[n].(refcount := cells[n].refcount - 1)]
    else (if n in s.kids then DeleteEach(s, cells, n, s.kids[n]) else cells) - {n}
  }

  ghost function DeleteEach(s: State, cells: Cells, n: Ptr, cs: seq<Ptr>): Cells
    requires Good(s) && n in s.cells && forall c | c in cs :: c in s.cells && s.cells[c].parent == Some(n)
    decreases Below(s.cells, s.rank, n), 0, |cs|
  {
    if cs == [] then cells
    else
      MemberSmaller(s.cells, s.cells, s.rank, cs[0], n);
      DeleteEach(s, DeleteCells(s, cells, cs[0]), n, cs[1..])
  }

  /** From cells to cells', deleting n has freed and lowered what it should, and nothing else. */
  ghost predicate DeletedFrom(s: State, cells: Cells, cells': Cells, n: Ptr)
    requires Good(s)
  {
    forall m ::
      && (m in cells' <==> m in cells && m !in Freed(s, n))
      && (m in cells' ==>
            cells'[m] == if Lowered(s, m, n) then cells[m].(refcount := s.cells[m].refcount - 1) else cells[m])
  }

  ghost predicate FreedIn(s: State, m: Ptr, cs: seq<Ptr>)
    requires Good(s)
  {
    exists c :: c in cs && m in Freed(s, c)
  }

  ghost predicate LoweredIn(s: State, m: Ptr, cs: seq<Ptr>)
    requires Good(s)
  {
    exists c :: c in cs && Lowered(s, m, c)
  }

  /** The same for all members of a list. */
  ghost predicate EachFrom(s: State, cells: Cells, cells': Cells, cs: seq<Ptr>)
    requires Good(s)
  {
    forall m ::
      && (m in cells' <==> m in cells && !FreedIn(s, m, cs))
      && (m in cells' ==>
            cells'[m] == if LoweredIn(s, m, cs) then cells[m].(refcount := s.cells[m].refcount - 1) else cells[m])
  }

  /** Nothing below n has changed yet. */
  ghost predicate Agree(s: State, cells: Cells, n: Ptr)
    requires Good(s)
  {
    forall m | m in Below(s.cells, s.rank, n) :: m in cells && cells[m] == s.cells[m]
  }

  lemma LoweredUnder(s: State, m: Ptr, n: Ptr)
    requires Good(s) && Lowered(s, m, n)
    ensures m in Below(s.cells, s.rank, n)
  {
    if m != n {
      ReachedUnder(s, s.cells[m].parent.value, n);
    }
  }

  lemma {:induction false} ReachedTop(s: State, m: Ptr, n: Ptr)
    requires Good(s) && m in s.cells && Reached(s, m, n)
    ensures n in s.cells && s.cells[n].refcount == 0
    decreases s.rank[m]
  {
    if m != n {
      ReachedTop(s, s.cells[m].parent.value, n);
    }
  }

  /** What is reached below n is reached through a member. */
  lemma {:induction false} ReachedVia(s: State, m: Ptr, n: Ptr) returns (c: Ptr)
    requires Good(s) && m in s.cells && m != n && Reached(s, m, n)
    ensures c in s.cells && s.cells[c].parent == Some(n) && Reached(s, m, c)
    decreases s.rank[m]
  {
    if s.cells[m].parent == Some(n) {
      c := m;
    } else {
      c := ReachedVia(s, s.cells[m].parent.value, n);
    }
  }

  lemma {:induction false} ReachedOn(s: State, m: Ptr, c: Ptr, n: Ptr)
    requires Good(s) && m in s.cells && c in s.cells && s.cells[c].parent == Some(n) && Reached(s, m, c)
    requires n in s.cells && s.cells[n].refcount == 0
    ensures Reached(s, m, n)
    decreases s.rank[m]
  {
    if m == c {
      assert Reached(s, n, n);
    } else {
      ReachedOn(s, s.cells[m].parent.value, c, n);
    }
  }

  /** Deleting a compound that nobody holds is deleting its members, and then itself. */
  lemma ByMembers(s: State, n: Ptr, m: Ptr)
    requires Good(s) && n in s.cells && s.cells[n].refcount == 0 && m != n
    ensures m in Freed(s, n) <==> n in s.kids && FreedIn(s, m, s.kids[n])
    ensures Lowered(s, m, n) <==> n in s.kids && LoweredIn(s, m, s.kids[n])
  {
    hide Rings, AllSiblingIds, Compounds, Allocated, Ranked;
    if m in Freed(s, n) {
      var c := ReachedVia(s, m, n);
      assert c in s.kids[n] && m in Freed(s, c);
    }
    if n in s.kids && FreedIn(s, m, s.kids[n]) {
      var c :| c in s.kids[n] && m in Freed(s, c);
      ReachedOn(s, m, c, n);
    }
    if Lowered(s, m, n) {
      var c := LoweredVia(s, m, n);
    }
    if n in s.kids && LoweredIn(s, m, s.kids[n]) {
      var c :| c in s.kids[n] && Lowered(s, m, c);
      LoweredOn(s, m, c, n);
    }
  }

  lemma LoweredVia(s: State, m: Ptr, n: Ptr) returns (c: Ptr)
    requires Good(s) && m != n && Lowered(s, m, n)
    ensures n in s.kids && c in s.kids[n] && Lowered(s, m, c)
  {
    if s.cells[m].parent == Some(n) {
      c := m;
    } else {
      c := ReachedVia(s, s.cells[m].parent.value, n);
    }
  }

  lemma LoweredOn(s: State, m: Ptr, c: Ptr, n: Ptr)
    requires Good(s) && c in s.cells && s.cells[c].parent == Some(n) && Lowered(s, m, c)
    requires n in s.cells && s.cells[n].refcount == 0
    ensures Lowered(s, m, n)
  {
    if m == c {
      assert Reached(s, n, n);
    } else {
      ReachedOn(s, s.cells[m].parent.value, c, n);
    }
  }

  /** snd_config_delete frees exactly what it reaches, and takes one reference from each node that stops it. */
  lemma {:induction false} DeleteFrees(s: State, cells: Cells, n: Ptr)
    requires Good(s) && n in s.cells && Agree(s, cells, n)
    ensures DeletedFrom(s, cells, DeleteCells(s, cells, n), n)
    decreases Below(s.cells, s.rank, n), 1
  {
    assert n in Below(s.cells, s.rank, n) && n in cells && cells[n] == s.cells[n];
    if s.cells[n].refcount > 0 {
      HeldStops(s, n);
    } else {
      var each := if n in s.kids then DeleteEach(s, cells, n, s.kids[n]) else cells;
      if n in s.kids {
        MembersReady(s, cells, n);
        EachDeleted(s, cells, n, s.kids[n]);
      }
      assert Reached(s, n, n);
      hide IsForest, Freed, Lowered, FreedIn, LoweredIn, DeleteEach, DeleteCells;
      forall m | m != n
        ensures m in each <==> m in cells && m !in Freed(s, n)
        ensures m in each ==>
                  each[m] == if Lowered(s, m, n) then cells[m].(refcount := s.cells[m].refcount - 1) else cells[m]
      {
        ByMembers(s, n, m);
      }
    }
  }

  lemma HeldStops(s: State, n: Ptr)
    requires Good(s) && n in s.cells && s.cells[n].refcount > 0
    ensures forall m :: m !in Freed(s, n) && (Lowered(s, m, n) <==> m == n)
  {
    forall m
      ensures m !in Freed(s, n) && (Lowered(s, m, n) <==> m == n)
    {
      if m in Freed(s, n) {
        ReachedTop(s, m, n);
      }
      if Lowered(s, m, n) && m != n {
        ReachedTop(s, s.cells[m].parent.value, n);
      }
    }
  }

  lemma MembersReady(s: State, cells: Cells, n: Ptr)
    requires Good(s) && n in s.cells && n in s.kids && Agree(s, cells, n)
    ensures Distinct(s.kids[n])
    ensures forall c | c in s.kids[n] :: c in s.cells && s.cells[c].parent == Some(n) && Agree(s, cells, c)
  {
    RingOf(s.links, s.kids, n);
    forall c | c in s.kids[n]
      ensures Agree(s, cells, c)
    {
      MemberUnder(s.cells, s.rank, c, n);
      forall m | m in Below(s.cells, s.rank, c)
        ensures m in Below(s.cells, s.rank, n)
      {
        UnderTrans(s.cells, s.rank, m, c, n);
      }
    }
  }

  lemma {:induction false} EachDeleted(s: State, cells: Cells, n: Ptr, cs: seq<Ptr>)
    requires Good(s) && n in s.cells && Distinct(cs)
    requires forall c | c in cs :: c in s.cells && s.cells[c].parent == Some(n) && Agree(s, cells, c)
    ensures EachFrom(s, cells, DeleteEach(s, cells, n, cs), cs)
    decreases Below(s.cells, s.rank, n), 0, |cs|
  {
    hide Rings, Up, Down, AllSiblingIds, Compounds, Allocated, Freed, Lowered, DeleteCells;
    if cs != [] {
      MemberSmaller(s.cells, s.cells, s.rank, cs[0], n);
      var one := DeleteCells(s, cells, cs[0]);
      DeleteFrees(s, cells, cs[0]);
      forall c | c in cs[1..]
        ensures c in s.cells && s.cells[c].parent == Some(n) && Agree(s, one, c)
      {
        SiblingUntouched(s, cells, one, n, cs[0], c);
      }
      EachDeleted(s, one, n, cs[1..]);
      EachStep(s, cells, one, DeleteEach(s, one, n, cs[1..]), cs);
    }
  }

  lemma SiblingUntouched(s: State, cells: Cells, cells': Cells, n: Ptr, d: Ptr, c: Ptr)
    requires Good(s) && d in s.cells && c in s.cells && c != d && s.cells[d].parent == Some(n)
    requires s.cells[c].parent == Some(n)
    requires Agree(s, cells, c) && DeletedFrom(s, cells, cells', d)
    ensures Agree(s, cells', c)
  {
    SiblingsApart(s.cells, s.rank, c, d);
    Apart(s.cells, s.rank, c, d);
    forall m | m in Below(s.cells, s.rank, c)
      ensures m in cells' && cells'[m] == s.cells[m]
    {
      if Reached(s, m, d) {
        ReachedUnder(s, m, d);
      }
      if Lowered(s, m, d) {
        LoweredUnder(s, m, d);
      }
    }
  }

  /** One member and then the others: they have no node in common. */
  lemma EachStep(s: State, cells: Cells, one: Cells, all: Cells, cs: seq<Ptr>)
    requires Good(s) && cs != [] && DeletedFrom(s, cells, one, cs[0]) && EachFrom(s, one, all, cs[1..])
    ensures EachFrom(s, cells, all, cs)
  {
    hide IsForest, Freed, Lowered;
    forall m
      ensures FreedIn(s, m, cs) <==> m in Freed(s, cs[0]) || FreedIn(s, m, cs[1..])
      ensures LoweredIn(s, m, cs) <==> Lowered(s, m, cs[0]) || LoweredIn(s, m, cs[1..])
    {
    }
  }

  /** Where nobody holds a reference below n, the whole subtree is freed. */
  lemma FreedAll(s: State, n: Ptr)
    requires Good(s) && n in s.cells && s.cells[n].refcount == 0 && ZeroBelow(s, n)
    ensures Freed(s, n) == Below(s.cells, s.rank, n)
  {
    forall m | m in s.cells
      ensures m in Freed(s, n) <==> m in Below(s.cells, s.rank, n)
    {
      if Reached(s, m, n) {
        ReachedUnder(s, m, n);
      }
      if m in Below(s.cells, s.rank, n) {
        AllReached(s, m, n);
      }
    }
  }

  /** A node that is left over with a freed parent. */
  lemma {:induction false} Orphaned(s: State, m: Ptr, n: Ptr) returns (x: Ptr)
    requires Good(s) && n in s.cells && m in Below(s.cells, s.rank, n) && !Reached(s, m, n) && Reached(s, n, n)
    ensures x in s.cells && x !in Freed(s, n) && s.cells[x].parent.Some? && s.cells[x].parent.value in Freed(s, n)
    decreases s.rank[m]
  {
    var q := s.cells[m].parent.value;
    if Reached(s, q, n) {
      x := m;
    } else {
      x := Orphaned(s, q, n);
    }
  }

  /** Somebody else's reference below n: whatever is made of the rest, what deleting n leaves is no forest. */
  lemma DeleteDangles(s: State, n: Ptr, links': Links, kids': Kids, rank': Ranks)
    requires Good(s) && n in s.cells && s.cells[n].refcount == 0 && !ZeroBelow(s, n)
    ensures !IsForest(links', DeleteCells(s, s.cells, n), kids', rank')
  {
    DeleteFrees(s, s.cells, n);
    hide DeleteCells;
    var cells' := DeleteCells(s, s.cells, n);
    var m :| m in Below(s.cells, s.rank, n) && m != n && s.cells[m].refcount != 0;
    var x := Orphaned(s, m, n);
    assert x in cells' && cells'[x].parent.value !in cells';
  }

  /** A load that comes to delete what is busy takes a reference away, or leaves no forest. */
  lemma BusyDeleted(s: State, c: Ptr)
    requires Good(s) && c in s.cells && Busy(s, c)
    ensures s.cells[c].refcount > 0 ==>
              DeleteCells(s, s.cells, c) == s.cells[c := s.cells[c].(refcount := s.cells[c].refcount - 1)]
    ensures s.cells[c].refcount == 0 ==>
              forall links', kids', rank' :: !IsForest(links', DeleteCells(s, s.cells, c), kids', rank')
  {
    if s.cells[c].refcount == 0 {
      forall links', kids', rank'
        ensures !IsForest(links', DeleteCells(s, s.cells, c), kids', rank')
      {
        DeleteDangles(s, c, links', kids', rank');
      }
    }
  }

  /** An overriding definition of a member that somebody holds: two members of one id, and no forest. */
  lemma OverrideClashes(s: State, p: Ptr, c: Ptr, n: Ptr, data: Data, links': Links, kids': Kids, rank': Ranks)
    requires Good(s) && c in s.cells && s.cells[c].parent == Some(p) && s.cells[c].refcount > 0 && n !in s.cells
    ensures !IsForest(links', DeleteCells(s, s.cells, c)[n := Cell(s.cells[c].id, data, 0, Some(p))], kids', rank')
  {
    var cells' := DeleteCells(s, s.cells, c)[n := Cell(s.cells[c].id, data, 0, Some(p))];
    assert c in cells' && n in cells' && cells'[c].parent == cells'[n].parent && cells'[c].id == cells'[n].id && c != n;
    if IsForest(links', cells', kids', rank') {
      SiblingsDiffer(links', cells', kids', rank', c, n);
      assert false;
    }
  }

  /** A member that somebody holds is left behind when its compound is given the members of another, or a scalar. */
  lemma ReplacedDangles(s: State, dst: Ptr, src: Ptr, c: Ptr, links': Links, cells': Cells, kids': Kids, rank': Ranks)
    requires Good(s) && dst in s.kids && c in s.kids[dst] && c in s.cells && s.cells[c].refcount > 0
    requires src in s.cells && src != dst && dst in cells' && cells'[dst].data == s.cells[src].data
    requires c in cells' && cells'[c].parent == Some(dst) && (src in s.kids ==> IsRing(links', dst, s.kids[src]))
    ensures !IsForest(links', cells', kids', rank')
  {
    if IsForest(links', cells', kids', rank') {
      assert dst in kids' && c in kids'[dst];
      assert src in s.kids;
      RingUnique(links', dst, kids'[dst], s.kids[src], 0);
      assert false;
    }
  }
}
