/** snd_config_make_path (conf.c:2706-2760): the compound at a dotted key, made where it is missing. */
module PathMaking {
  import opened Numbers
  import opened Ring
  import opened Forest
  import opened Searching
  import opened ConfigHeap

  /** The ids of a dotted key. */
  function Keys(key: string): (r: seq<string>)
    ensures r != []
    decreases |key|
  {
    match FirstDot(key)
    case None => [key]
    case Some(d) => [key[..d]] + Keys(key[d + 1..])
  }

  /** The ids on the way from root down to n. */
  predicate LeadsTo(cells: Cells, root: Ptr, path: seq<string>, n: Ptr)
    decreases |path|
  {
    && n in cells
    && if path == [] then n == root
       else
         var last := |path| - 1;
         && cells[n].id == Some(path[last]) && cells[n].parent.Some?
         && LeadsTo(cells, root, path[..last], cells[n].parent.value)
  }

  /** In a forest a path leads to one node at most. */
  lemma {:induction false} LeadsToOne(links: Links, cells: Cells, kids: Kids, rank: Ranks,
                                      root: Ptr, path: seq<string>, m: Ptr, n: Ptr)
    requires IsForest(links, cells, kids, rank) && LeadsTo(cells, root, path, m) && LeadsTo(cells, root, path, n)
    ensures m == n
    decreases |path|
  {
    if path != [] {
      LeadsToOne(links, cells, kids, rank, root, path[..|path| - 1], cells[m].parent.value, cells[n].parent.value);
      var s := kids[cells[m].parent.value];
      assert m in s && n in s;
      var i :| 0 <= i < |s| && s[i] == m;
      var j :| 0 <= j < |s| && s[j] == n;
      assert SiblingIds(cells, s);
    }
  }

  lemma LeadsOn(cells: Cells, root: Ptr, path: seq<string>, n: Ptr, id: string, c: Ptr)
    requires LeadsTo(cells, root, path, n) && c in cells && cells[c].id == Some(id) && cells[c].parent == Some(n)
    ensures LeadsTo(cells, root, path + [id], c)
  {
    assert (path + [id])[..|path|] == path;
  }

  /** More nodes do not change where a path leads. */
  lemma {:induction false} LeadsStill(cells: Cells, cells': Cells, root: Ptr, path: seq<string>, n: Ptr, gone: set<Ptr>)
    requires LeadsTo(cells, root, path, n) && n !in gone
    requires forall m | m in cells && m !in gone ::
               m in cells' && cells'[m] == cells[m] && (cells[m].parent.Some? ==> cells[m].parent.value !in gone)
    ensures LeadsTo(cells', root, path, n)
    decreases |path|
  {
    if path != [] {
      LeadsStill(cells, cells', root, path[..|path| - 1], cells[n].parent.value, gone);
    }
  }

  datatype Result =
    /** The compound at the key. */
    | Made(n: Ptr)
    /** EACCES: there is a scalar and it may not be replaced. */
    | NotCompound
    /** EEXIST: the scalar is referenced elsewhere, so deleting it has only counted down. */
    | Clash
    /** The way leads through a scalar, where the assertion that it is a compound fails. */
    | Astray

  /** A new compound without members becomes the last member of p. */
  method AddCompound(h: Heap, p: Ptr, id: string, join: bool) returns (n: Ptr, e: Option<Errno>)
    requires h.Valid() && p in h.kids && p in h.cells
    modifies h, h.mem
    ensures h.Valid() && n !in old(h.cells) && n in h.kids && h.kids[n] == []
    ensures e.Some? <==> exists m :: m in old(h.kids)[p] && m in old(h.cells) && old(h.cells)[m].id == Some(id)
    ensures e.None? ==>
              && h.cells == old(h.cells)[n := Cell(Some(id), Members(join), 0, Some(p))]
              && h.kids == old(h.kids)[n := []][p := old(h.kids)[p] + [n]]
    ensures e.Some? ==>
              && h.cells == old(h.cells)[n := Cell(Some(id), Members(join), 0, None)]
              && h.kids == old(h.kids)[n := []]
  {
    hide Compounds, Rings, Allocated, Up, Down, AllSiblingIds, Ranked, Under;
    MembersLive(h.mem.links, h.cells, h.kids, h.rank, p);
    KidsLive(h.mem.links, h.cells, h.kids, h.rank);
    n := h.Make(Some(id), Members(join));
    NothingBelow(h.mem.links, h.cells, h.kids, h.rank, p, n);
    e := h.Add(p, n);
    ErrnoCases(e);
  }

  lemma KidsLive(links: Links, cells: Cells, kids: Kids, rank: Ranks)
    requires IsForest(links, cells, kids, rank)
    ensures forall p | p in kids :: p in cells
  {
  }

  lemma NothingBelow(links: Links, cells: Cells, kids: Kids, rank: Ranks, m: Ptr, n: Ptr)
    requires IsForest(links, cells, kids, rank) && n in kids && kids[n] == [] && m in cells && m != n
    ensures !Under(cells, rank, m, n)
  {
    BelowAll(cells, kids, rank, n);
    BelowNone(cells, rank, kids[n]);
    assert m !in Below(cells, rank, n) - {n};
  }

  /** The members of p, and no other node, have p as parent. */
  lemma ChildIs(links: Links, cells: Cells, kids: Kids, rank: Ranks, p: Ptr, c: Ptr)
    requires IsForest(links, cells, kids, rank) && p in kids && c in kids[p]
    ensures c in cells && cells[c].parent == Some(p)
    ensures c in kids <==> cells[c].data.Members?
  {
  }

  // ----- the state after each step, in full

  /** One new compound at the end of p. */
  function WithCell(cells: Cells, p: Ptr, id: string, join: bool, n: Ptr): Cells {
    cells[n := Cell(Some(id), Members(join), 0, Some(p))]
  }

  function WithMember(kids: Kids, p: Ptr, n: Ptr): Kids {
    if p in kids then kids[n := []][p := kids[p] + [n]] else kids
  }

  /** The last node of a chain that hangs from p. */
  function Tip(p: Ptr, chain: seq<Ptr>): Ptr {
    if chain == [] then p else chain[|chain| - 1]
  }

  /** A chain of new compounds with the given ids, each the last member of the one before, the first of p. */
  function ChainCells(cells: Cells, p: Ptr, ids: seq<string>, join: bool, chain: seq<Ptr>): Cells
    requires |ids| == |chain|
  {
    if ids == [] then cells
    else
      var k := |ids| - 1;
      WithCell(ChainCells(cells, p, ids[..k], join, chain[..k]), Tip(p, chain[..k]), ids[k], join, chain[k])
  }

  function ChainKids(kids: Kids, p: Ptr, chain: seq<Ptr>): Kids {
    if chain == [] then kids
    else
      var k := |chain| - 1;
      WithMember(ChainKids(kids, p, chain[..k]), Tip(p, chain[..k]), chain[k])
  }

  lemma ChainStep(cells: Cells, kids: Kids, p: Ptr, ids: seq<string>, join: bool, chain: seq<Ptr>, id: string, n: Ptr)
    requires |ids| == |chain|
    ensures ChainCells(cells, p, ids + [id], join, chain + [n])
         == WithCell(ChainCells(cells, p, ids, join, chain), Tip(p, chain), id, join, n)
    ensures ChainKids(kids, p, chain + [n]) == WithMember(ChainKids(kids, p, chain), Tip(p, chain), n)
    ensures Tip(p, chain + [n]) == n
  {
    assert (ids + [id])[..|ids|] == ids && (chain + [n])[..|chain|] == chain;
  }

  /** A step down: the member with the id, or a new compound with it behind the others. */
  method Descend(h: Heap, p: Ptr, id: string, join: bool) returns (c: Ptr, made: bool)
    requires h.Valid() && p in h.kids && p in h.cells
    modifies h, h.mem
    ensures h.Valid() && c in h.cells && h.cells[c].id == Some(id) && h.cells[c].parent == Some(p)
    ensures made <==> forall m | m in old(h.kids)[p] && m in old(h.cells) :: old(h.cells)[m].id != Some(id)
    ensures !made ==> h.cells == old(h.cells) && h.kids == old(h.kids) && c in h.kids[p]
    ensures made ==>
              && c !in old(h.cells) && c in h.kids && h.kids[c] == []
              && h.cells == WithCell(old(h.cells), p, id, join, c) && h.kids == WithMember(old(h.kids), p, c)
  {
    hide Compounds, Rings, Allocated, Up, Down, AllSiblingIds, Ranked, Under;
    var f := h.FindChild(p, id, None);
    if f.Some? {
      ChildIs(h.mem.links, h.cells, h.kids, h.rank, p, f.value);
      return f.value, false;
    }
    KidsLive(h.mem.links, h.cells, h.kids, h.rank);
    var n, e := AddCompound(h, p, id, join);
    return n, true;
  }

  /** A scalar member of p with the id. */
  ghost predicate ScalarAt(cells: Cells, kids: Kids, p: Ptr, id: string, c: Ptr) {
    p in kids && c in kids[p] && c in cells && cells[c].id == Some(id) && cells[c].data.Scalar?
  }

  /** The scalar c, which nobody else holds, has given way to a new compound n at the end of p. */
  ghost predicate Replaced(cells: Cells, kids: Kids, cells': Cells, kids': Kids, p: Ptr, id: string, join: bool,
                           c: Ptr, n: Ptr) {
    && ScalarAt(cells, kids, p, id, c) && cells[c].refcount == 0 && n !in cells - {c}
    && cells' == WithCell(cells - {c}, p, id, join, n)
    && kids' == WithMember(kids[p := Minus(kids[p], c)], p, n)
  }

  /** The scalar c has lost a count, and there is a new compound that nothing points to. */
  ghost predicate Clashed(cells: Cells, kids: Kids, cells': Cells, kids': Kids, p: Ptr, id: string, join: bool, c: Ptr,
                          n: Ptr) {
    && ScalarAt(cells, kids, p, id, c) && cells[c].refcount > 0 && n !in cells
    && cells' == cells[c := cells[c].(refcount := cells[c].refcount - 1)][n := Cell(Some(id), Members(join), 0, None)]
    && kids' == kids[n := []]
  }

  /** The last id of the key, where a scalar may be replaced; c is that scalar, if there is one. */
  method Last(h: Heap, p: Ptr, id: string, join: bool, override: bool) returns (r: Result, ghost c: Ptr, ghost n: Ptr)
    requires h.Valid() && p in h.kids && p in h.cells
    modifies h, h.mem
    ensures h.Valid() && !r.Astray?
    ensures (exists m :: ScalarAt(old(h.cells), old(h.kids), p, id, m)) ==>
              ScalarAt(old(h.cells), old(h.kids), p, id, c)
    ensures r.NotCompound? <==> !override && exists m :: ScalarAt(old(h.cells), old(h.kids), p, id, m)
    ensures r.NotCompound? ==> h.cells == old(h.cells) && h.kids == old(h.kids)
    ensures r.Clash? <==>
              override && ScalarAt(old(h.cells), old(h.kids), p, id, c) && old(h.cells)[c].refcount > 0
    ensures r.Clash? ==> Clashed(old(h.cells), old(h.kids), h.cells, h.kids, p, id, join, c, n)
    ensures r.Made? ==> r.n in h.kids && r.n in h.cells && h.cells[r.n].id == Some(id) && h.cells[r.n].parent == Some(p)
    ensures r.Made? ==>
              if ScalarAt(old(h.cells), old(h.kids), p, id, c) then
                Replaced(old(h.cells), old(h.kids), h.cells, h.kids, p, id, join, c, r.n)
              else if exists m :: m in old(h.kids)[p] && m in old(h.cells) && old(h.cells)[m].id == Some(id) then
                h.cells == old(h.cells) && h.kids == old(h.kids)
              else
                && r.n !in old(h.cells) && h.cells == WithCell(old(h.cells), p, id, join, r.n)
                && h.kids == WithMember(old(h.kids), p, r.n)
  {
    hide Compounds, Rings, Allocated, Up, Down, AllSiblingIds, Ranked, Under;
    c, n := p, p;
    MembersLive(h.mem.links, h.cells, h.kids, h.rank, p);
    var f := h.FindChild(p, id, None);
    if f.None? {
      KidsLive(h.mem.links, h.cells, h.kids, h.rank);
      var m, e := AddCompound(h, p, id, join);
      return Made(m), p, p;
    }
    var m := f.value;
    ChildIs(h.mem.links, h.cells, h.kids, h.rank, p, m);
    OnlyMember(h.mem.links, h.cells, h.kids, h.rank, p, m);
    if h.cells[m].data.Members? {
      return Made(m), p, p;
    }
    c := m;
    assert ScalarAt(h.cells, h.kids, p, id, c);
    if !override {
      return NotCompound, c, p;
    }
    r, n := Replace(h, p, m, id, join);
  }

  /** No other member has the id of m. */
  lemma OnlyMember(links: Links, cells: Cells, kids: Kids, rank: Ranks, p: Ptr, m: Ptr)
    requires IsForest(links, cells, kids, rank) && p in kids && m in kids[p]
    ensures m in cells && forall x | x in kids[p] && x in cells && cells[x].id == cells[m].id :: x == m
  {
    var s := kids[p];
    assert SiblingIds(cells, s);
    var i :| 0 <= i < |s| && s[i] == m;
    forall x | x in s && x in cells && cells[x].id == cells[m].id
      ensures x == m
    {
      var j :| 0 <= j < |s| && s[j] == x;
    }
  }

  method Replace(h: Heap, p: Ptr, c: Ptr, id: string, join: bool) returns (r: Result, ghost n: Ptr)
    requires h.Valid() && p in h.kids && p in h.cells && ScalarAt(h.cells, h.kids, p, id, c)
    modifies h, h.mem
    ensures h.Valid()
    ensures r.Made? || r.Clash?
    ensures r.Clash? <==> old(h.cells)[c].refcount > 0
    ensures r.Made? ==>
              && r.n in h.kids && r.n in h.cells && h.cells[r.n].id == Some(id) && h.cells[r.n].parent == Some(p)
              && Replaced(old(h.cells), old(h.kids), h.cells, h.kids, p, id, join, c, r.n)
    ensures r.Clash? ==> Clashed(old(h.cells), old(h.kids), h.cells, h.kids, p, id, join, c, n)
  {
    hide Compounds, Rings, Allocated, Up, Down, AllSiblingIds, Ranked, Under;
    ghost var k :| 0 <= k < |h.kids[p]| && h.kids[p][k] == c;
    ghost var c0, k0, s := h.cells, h.kids, h.kids[p];
    ChildIs(h.mem.links, h.cells, h.kids, h.rank, p, c);
    SelfBelow(h.mem.links, h.cells, h.kids, h.rank, c);
    OthersDiffer(h.mem.links, h.cells, h.kids, h.rank, p, k);
    RingOf(h.mem.links, h.kids, p);
    DropIsMinus(s, k);
    KidsLive(h.mem.links, h.cells, h.kids, h.rank);
    h.Delete(c, k);
    KidsLive(h.mem.links, h.cells, h.kids, h.rank);
    MembersLive(h.mem.links, h.cells, h.kids, h.rank, p);
    assert c0[c].refcount == 0 ==> h.kids == k0[p := Minus(s, c)];
    var m, e := AddCompound(h, p, id, join);
    n := m;
    if e.Some? {
      return Clash, m;
    }
    return Made(m), m;
  }

  lemma OthersDiffer(links: Links, cells: Cells, kids: Kids, rank: Ranks, p: Ptr, k: nat)
    requires IsForest(links, cells, kids, rank) && p in kids && k < |kids[p]|
    ensures forall m | m in Drop(kids[p], k) :: m in cells && m != kids[p][k] && cells[m].id != cells[kids[p][k]].id
  {
    var s := kids[p];
    RingOf(links, kids, p);
    assert SiblingIds(cells, s);
    forall m | m in Drop(s, k)
      ensures m in cells && m != s[k] && cells[m].id != cells[s[k]].id
    {
      DropFacts(s, k, m);
      var i :| 0 <= i < |s| && s[i] == m;
      assert s[k] in s;
    }
  }

  // ----- the whole key

  lemma KeysStep(key: string)
    ensures FirstDot(key).Some? ==>
              var d := FirstDot(key).value;
              Keys(key) == [key[..d]] + Keys(key[d + 1..])
    ensures FirstDot(key).None? ==> Keys(key) == [key]
  {
  }

  /** There is a scalar where the path leads. */
  ghost predicate ScalarOn(cells: Cells, root: Ptr, path: seq<string>, m: Ptr) {
    LeadsTo(cells, root, path, m) && cells[m].data.Scalar?
  }

  lemma {:induction false} PrefixLeads(cells: Cells, root: Ptr, path: seq<string>, m: Ptr, k: nat) returns (q: Ptr)
    requires LeadsTo(cells, root, path, m) && k <= |path|
    ensures LeadsTo(cells, root, path[..k], q)
    decreases |path|
  {
    if k == |path| {
      assert path[..k] == path;
      q := m;
    } else {
      var front := path[..|path| - 1];
      q := PrefixLeads(cells, root, front, cells[m].parent.value, k);
      assert front[..k] == path[..k];
    }
  }

  /** On the way to a node there are only compounds. */
  lemma {:induction false} WayIsCompound(links: Links, cells: Cells, kids: Kids, rank: Ranks,
                                         root: Ptr, path: seq<string>, n: Ptr, k: nat, m: Ptr)
    requires IsForest(links, cells, kids, rank) && LeadsTo(cells, root, path, n)
    requires k < |path| && LeadsTo(cells, root, path[..k], m)
    ensures cells[m].data.Members?
    decreases |path|
  {
    var front, p := path[..|path| - 1], cells[n].parent.value;
    assert front[..k] == path[..k];
    if k == |front| {
      assert front[..k] == front;
      LeadsToOne(links, cells, kids, rank, root, front, m, p);
    } else {
      WayIsCompound(links, cells, kids, rank, root, front, p, k, m);
    }
  }

  /** Nothing is there when the compound above has no such member. */
  lemma NothingThere(links: Links, cells: Cells, kids: Kids, rank: Ranks, root: Ptr, path: seq<string>, p: Ptr,
                     id: string, m: Ptr)
    requires IsForest(links, cells, kids, rank) && LeadsTo(cells, root, path, p) && p in kids
    requires forall x | x in kids[p] && x in cells :: cells[x].id != Some(id)
    ensures !LeadsTo(cells, root, path + [id], m)
  {
    if LeadsTo(cells, root, path + [id], m) {
      assert (path + [id])[..|path|] == path;
      LeadsToOne(links, cells, kids, rank, root, path, cells[m].parent.value, p);
    }
  }

  /** What is at the key: the longest part that is there, and where it leads. */
  ghost predicate Missing(cells: Cells, kids: Kids, root: Ptr, keys: seq<string>, i: nat, p: Ptr) {
    && i < |keys| && LeadsTo(cells, root, keys[..i], p) && p in kids
    && Unreached(cells, root, keys[..i + 1])
  }

  /** The path leads nowhere. */
  ghost predicate Unreached(cells: Cells, root: Ptr, path: seq<string>) {
    forall m :: !LeadsTo(cells, root, path, m)
  }

  lemma MissingClears(links: Links, cells: Cells, kids: Kids, rank: Ranks, root: Ptr, keys: seq<string>, i: nat,
                      p: Ptr, k: nat, m: Ptr)
    requires IsForest(links, cells, kids, rank) && Missing(cells, kids, root, keys, i, p) && k <= |keys|
    ensures !ScalarOn(cells, root, keys[..k], m)
  {
    if LeadsTo(cells, root, keys[..k], m) {
      if k > i {
        assert keys[..k][..i + 1] == keys[..i + 1];
        var q := PrefixLeads(cells, root, keys[..k], m, i + 1);
      } else if k == i {
        LeadsToOne(links, cells, kids, rank, root, keys[..i], m, p);
      } else {
        assert keys[..i][..k] == keys[..k];
        WayIsCompound(links, cells, kids, rank, root, keys[..i], p, k, m);
      }
    }
  }

  lemma FoundClears(links: Links, cells: Cells, kids: Kids, rank: Ranks, root: Ptr, keys: seq<string>, n: Ptr,
                    path: seq<string>, m: Ptr)
    requires IsForest(links, cells, kids, rank) && LeadsTo(cells, root, keys, n)
    ensures path < keys ==> !ScalarOn(cells, root, path, m)
    ensures ScalarOn(cells, root, keys, m) ==> m == n
  {
    if path < keys && LeadsTo(cells, root, path, m) {
      assert keys[..|path|] == path;
      WayIsCompound(links, cells, kids, rank, root, keys, n, |path|, m);
    }
    if LeadsTo(cells, root, keys, m) {
      LeadsToOne(links, cells, kids, rank, root, keys, m, n);
    }
  }

  /** New nodes, all different. */
  ghost predicate FreshChain(cells: Cells, chain: seq<Ptr>) {
    && (forall j :: 0 <= j < |chain| ==> chain[j] !in cells)
    && Distinct(chain)
  }

  lemma {:induction false} ChainLives(cells: Cells, p: Ptr, ids: seq<string>, join: bool, chain: seq<Ptr>)
    requires |ids| == |chain| && FreshChain(cells, chain)
    ensures forall m | m in cells ::
              m in ChainCells(cells, p, ids, join, chain) && ChainCells(cells, p, ids, join, chain)[m] == cells[m]
    ensures forall j :: 0 <= j < |chain| ==> chain[j] in ChainCells(cells, p, ids, join, chain)
    decreases |ids|
  {
    if ids != [] {
      var k := |ids| - 1;
      assert FreshChain(cells, chain[..k]);
      ChainLives(cells, p, ids[..k], join, chain[..k]);
      forall j | 0 <= j < |chain|
        ensures chain[j] in ChainCells(cells, p, ids, join, chain)
      {
        if j < k {
          assert chain[..k][j] == chain[j];
        }
      }
    }
  }

  /** How the walk along the key stands: i ids led to p, and behind it hangs a chain for the next ones. */
  ghost predicate Walked(c0: Cells, k0: Kids, c1: Cells, k1: Kids, root: Ptr, keys: seq<string>, i: nat, j: nat, p: Ptr,
                         join: bool, chain: seq<Ptr>, cur: Ptr) {
    && i <= j <= |keys| && |chain| == j - i && LeadsTo(c0, root, keys[..i], p)
    && FreshChain(c0, chain) && cur == Tip(p, chain) && LeadsTo(c1, root, keys[..j], cur)
    && c1 == ChainCells(c0, p, keys[i..j], join, chain) && k1 == ChainKids(k0, p, chain)
    && (chain != [] ==> Missing(c0, k0, root, keys, i, p) && cur in k1 && k1[cur] == [])
  }

  lemma WalkFound(c0: Cells, k0: Kids, root: Ptr, keys: seq<string>, j: nat, p: Ptr, join: bool, c: Ptr)
    requires Walked(c0, k0, c0, k0, root, keys, j, j, p, join, [], p) && j < |keys|
    requires c in c0 && c0[c].id == Some(keys[j]) && c0[c].parent == Some(p)
    ensures Walked(c0, k0, c0, k0, root, keys, j + 1, j + 1, c, join, [], c)
  {
    LeadsOn(c0, root, keys[..j], p, keys[j], c);
    assert keys[..j] + [keys[j]] == keys[..j + 1];
    assert keys[j + 1..j + 1] == [];
  }

  lemma WalkMade(c0: Cells, k0: Kids, c1: Cells, k1: Kids, root: Ptr, keys: seq<string>, i: nat, j: nat, p: Ptr,
                 join: bool, chain: seq<Ptr>, cur: Ptr, n: Ptr)
    requires Walked(c0, k0, c1, k1, root, keys, i, j, p, join, chain, cur) && j < |keys| && n !in c1 && cur in k1
    requires n != cur
    requires Missing(c0, k0, root, keys, i, p)
    ensures Walked(c0, k0, WithCell(c1, cur, keys[j], join, n), WithMember(k1, cur, n), root, keys, i, j + 1, p, join,
                   chain + [n], n)
  {
    hide LeadsTo, Missing, ChainCells, ChainKids;
    var c2 := WithCell(c1, cur, keys[j], join, n);
    ChainLives(c0, p, keys[i..j], join, chain);
    FreshMore(c0, c1, chain, n);
    ChainStep(c0, k0, p, keys[i..j], join, chain, keys[j], n);
    assert keys[i..j] + [keys[j]] == keys[i..j + 1] && keys[..j] + [keys[j]] == keys[..j + 1];
    LeadsLive(c1, root, keys[..j], cur);
    LeadsStill(c1, c2, root, keys[..j], cur, {});
    LeadsOn(c2, root, keys[..j], cur, keys[j], n);
  }

  lemma FreshMore(c0: Cells, c1: Cells, chain: seq<Ptr>, n: Ptr)
    requires FreshChain(c0, chain) && n !in c1
    requires (forall m | m in c0 :: m in c1) && forall j :: 0 <= j < |chain| ==> chain[j] in c1
    ensures FreshChain(c0, chain + [n])
  {
  }

  lemma LeadsLive(cells: Cells, root: Ptr, path: seq<string>, n: Ptr)
    requires LeadsTo(cells, root, path, n)
    ensures n in cells
  {
  }

  /** What stands in the way: a scalar in front of the end of the key. */
  ghost predicate Blocked(cells: Cells, root: Ptr, keys: seq<string>) {
    exists path, m :: path < keys && ScalarOn(cells, root, path, m)
  }

  ghost predicate EndsInScalar(cells: Cells, root: Ptr, keys: seq<string>) {
    exists m :: ScalarOn(cells, root, keys, m)
  }

  /** A walk along the whole key with its steps found or made, and what it tells about the state at the start. */
  lemma WalkClears(links: Links, c0: Cells, k0: Kids, rank: Ranks, c1: Cells, k1: Kids, root: Ptr, keys: seq<string>,
                   i: nat, j: nat, p: Ptr, join: bool, chain: seq<Ptr>, cur: Ptr)
    requires IsForest(links, c0, k0, rank) && Walked(c0, k0, c1, k1, root, keys, i, j, p, join, chain, cur)
    requires chain != []
    ensures !Blocked(c0, root, keys) && !EndsInScalar(c0, root, keys)
  {
    forall path, m | path < keys
      ensures !ScalarOn(c0, root, path, m)
    {
      assert keys[..|path|] == path;
      MissingClears(links, c0, k0, rank, root, keys, i, p, |path|, m);
    }
    forall m
      ensures !ScalarOn(c0, root, keys, m)
    {
      assert keys[..|keys|] == keys;
      MissingClears(links, c0, k0, rank, root, keys, i, p, |keys|, m);
    }
  }

  lemma EndClears(links: Links, cells: Cells, kids: Kids, rank: Ranks, root: Ptr, keys: seq<string>, n: Ptr)
    requires IsForest(links, cells, kids, rank) && LeadsTo(cells, root, keys, n)
    ensures !Blocked(cells, root, keys)
    ensures EndsInScalar(cells, root, keys) <==> cells[n].data.Scalar?
    ensures forall m | ScalarOn(cells, root, keys, m) :: m == n
  {
    forall path, m
      ensures path < keys ==> !ScalarOn(cells, root, path, m)
      ensures ScalarOn(cells, root, keys, m) ==> m == n
    {
      FoundClears(links, cells, kids, rank, root, keys, n, path, m);
    }
    if cells[n].data.Scalar? {
      assert ScalarOn(cells, root, keys, n);
    }
  }

  /** A scalar on the way ends the walk before anything has been made. */
  lemma BlockedThere(links: Links, c0: Cells, k0: Kids, rank: Ranks, root: Ptr, keys: seq<string>, j: nat, cur: Ptr)
    requires IsForest(links, c0, k0, rank) && j < |keys| && ScalarOn(c0, root, keys[..j], cur)
    ensures Blocked(c0, root, keys) && !EndsInScalar(c0, root, keys)
  {
    assert keys[..j] < keys;
    forall m
      ensures !ScalarOn(c0, root, keys, m)
    {
      if LeadsTo(c0, root, keys, m) {
        WayIsCompound(links, c0, k0, rank, root, keys, m, j, cur);
      }
    }
  }

  /**
   snd_config_make_path.  What was there of the key are its first i ids, which led to p; chain are the compounds made
   for the others, in their order; c is the scalar that was at the key, if any, and n the node left over by a clash.
   */
  method MakePath(h: Heap, root: Ptr, key: string, join: bool, override: bool)
    returns (r: Result, ghost i: nat, ghost p: Ptr, ghost chain: seq<Ptr>, ghost c: Ptr, ghost n: Ptr)
    requires h.Valid() && root in h.kids && root in h.cells
    modifies h, h.mem
    ensures h.Valid()
    ensures r.Astray? <==> Blocked(old(h.cells), root, Keys(key))
    ensures r.NotCompound? <==> !override && EndsInScalar(old(h.cells), root, Keys(key))
    ensures r.Clash? <==>
              override && exists m :: ScalarOn(old(h.cells), root, Keys(key), m) && old(h.cells)[m].refcount > 0
    ensures r.Astray? || r.NotCompound? ==> h.cells == old(h.cells) && h.kids == old(h.kids)
    ensures r.Clash? ==>
              && ScalarOn(old(h.cells), root, Keys(key), c)
              && Clashed(old(h.cells), old(h.kids), h.cells, h.kids, p, Keys(key)[|Keys(key)| - 1], join, c, n)
    ensures r.Made? ==> r.n in h.kids && LeadsTo(h.cells, root, Keys(key), r.n)
    ensures r.Made? ==>
              if EndsInScalar(old(h.cells), root, Keys(key)) then
                && ScalarOn(old(h.cells), root, Keys(key), c)
                && Replaced(old(h.cells), old(h.kids), h.cells, h.kids, p, Keys(key)[|Keys(key)| - 1], join, c, r.n)
              else
                Walked(old(h.cells), old(h.kids), h.cells, h.kids, root, Keys(key), i, |Keys(key)|, p, join, chain, r.n)
  {
    hide Compounds, Rings, Allocated, Up, Down, AllSiblingIds, Ranked, Under, Keys, LeadsTo, Missing, ChainCells,
         ChainKids, Clashed, Replaced;
    ghost var l0, c0, k0, r0, keys := h.mem.links, h.cells, h.kids, h.rank, Keys(key);
    var cur, rest := root, key;
    i, p, chain, c, n := 0, root, [], root, root;
    ghost var j := 0;
    WalkStarts(c0, k0, root, keys, join);
    assert keys[0..] == keys;
    while FirstDot(rest).Some?
      invariant h.Valid() && Walked(c0, k0, h.cells, h.kids, root, keys, i, j, p, join, chain, cur)
      invariant j < |keys| && Keys(rest) == keys[j..]
      decreases |rest|
    {
      var d := FirstDot(rest).value;
      KeysStep(rest);
      LeadsLive(h.cells, root, keys[..j], cur);
      KindOf(h.mem.links, h.cells, h.kids, h.rank, cur);
      if h.cells[cur].data.Scalar? {
        WalkNotMade(c0, k0, h.cells, h.kids, root, keys, i, j, p, join, chain, cur);
        BlockedThere(l0, c0, k0, r0, root, keys, j, cur);
        return Astray, i, p, chain, c, n;
      }
      cur, i, p, chain := WalkOn(h, root, keys, rest[..d], join, cur, l0, c0, k0, r0, i, j, p, chain);
      assert keys[j..][1..] == keys[j + 1..];
      rest := rest[d + 1..];
      j := j + 1;
    }
    KeysStep(rest);
    LeadsLive(h.cells, root, keys[..j], cur);
    KindOf(h.mem.links, h.cells, h.kids, h.rank, cur);
    if h.cells[cur].data.Scalar? {
      WalkNotMade(c0, k0, h.cells, h.kids, root, keys, i, j, p, join, chain, cur);
      BlockedThere(l0, c0, k0, r0, root, keys, j, cur);
      return Astray, i, p, chain, c, n;
    }
    assert |keys| == j + 1 && keys[j] == rest;
    r, i, p, chain, c, n := LastStep(h, root, keys, rest, join, override, cur, l0, c0, k0, r0, i, j, p, chain);
  }

  lemma KindOf(links: Links, cells: Cells, kids: Kids, rank: Ranks, n: Ptr)
    requires IsForest(links, cells, kids, rank) && n in cells
    ensures n in kids <==> cells[n].data.Members?
  {
  }

  lemma WalkStarts(c0: Cells, k0: Kids, root: Ptr, keys: seq<string>, join: bool)
    requires root in c0
    ensures Walked(c0, k0, c0, k0, root, keys, 0, 0, root, join, [], root)
  {
    assert keys[..0] == [];
  }

  lemma WalkNotMade(c0: Cells, k0: Kids, c1: Cells, k1: Kids, root: Ptr, keys: seq<string>, i: nat, j: nat, p: Ptr,
                    join: bool, chain: seq<Ptr>, cur: Ptr)
    requires Walked(c0, k0, c1, k1, root, keys, i, j, p, join, chain, cur) && cur !in k1
    ensures chain == [] && i == j && cur == p && c1 == c0 && k1 == k0 && LeadsTo(c0, root, keys[..j], cur)
  {
  }

  lemma WalkNoneYet(c0: Cells, k0: Kids, c1: Cells, k1: Kids, root: Ptr, keys: seq<string>, i: nat, j: nat, p: Ptr,
                    join: bool, chain: seq<Ptr>, cur: Ptr)
    requires Walked(c0, k0, c1, k1, root, keys, i, j, p, join, chain, cur)
    ensures chain == [] ==> i == j && cur == p && c1 == c0 && k1 == k0 && LeadsTo(c0, root, keys[..j], cur)
    ensures chain != [] ==> Missing(c0, k0, root, keys, i, p) && cur in k1 && k1[cur] == []
  {
  }

  /** One id further along the key. */
  method WalkOn(h: Heap, root: Ptr, ghost keys: seq<string>, id: string, join: bool, cur: Ptr,
                ghost l0: Links, ghost c0: Cells, ghost k0: Kids, ghost r0: Ranks,
                ghost i: nat, ghost j: nat, ghost p: Ptr, ghost chain: seq<Ptr>)
    returns (next: Ptr, ghost i': nat, ghost p': Ptr, ghost chain': seq<Ptr>)
    requires h.Valid() && IsForest(l0, c0, k0, r0) && cur in h.kids && cur in h.cells
    requires Walked(c0, k0, h.cells, h.kids, root, keys, i, j, p, join, chain, cur) && j < |keys| && id == keys[j]
    modifies h, h.mem
    ensures h.Valid() && Walked(c0, k0, h.cells, h.kids, root, keys, i', j + 1, p', join, chain', next)
  {
    hide Compounds, Rings, Allocated, Up, Down, AllSiblingIds, Ranked, Under, LeadsTo, Missing, Walked;
    ghost var c1, k1 := h.cells, h.kids;
    WalkNoneYet(c0, k0, c1, k1, root, keys, i, j, p, join, chain, cur);
    var made;
    next, made := Descend(h, cur, id, join);
    if made {
      if chain == [] {
        MissingHere(l0, c0, k0, r0, root, keys, j, cur);
      }
      WalkMade(c0, k0, c1, k1, root, keys, i, j, p, join, chain, cur, next);
      return next, i, p, chain + [next];
    }
    WalkFound(c0, k0, root, keys, j, p, join, next);
    return next, j + 1, next, [];
  }

  lemma MissingHere(links: Links, cells: Cells, kids: Kids, rank: Ranks, root: Ptr, keys: seq<string>, j: nat, p: Ptr)
    requires IsForest(links, cells, kids, rank) && j < |keys| && LeadsTo(cells, root, keys[..j], p) && p in kids
    requires forall x | x in kids[p] && x in cells :: cells[x].id != Some(keys[j])
    ensures Missing(cells, kids, root, keys, j, p)
  {
    var path := keys[..j + 1];
    assert keys[..j] + [keys[j]] == path;
    forall m
      ensures !LeadsTo(cells, root, path, m)
    {
      NothingThere(links, cells, kids, rank, root, keys[..j], p, keys[j], m);
    }
  }

  /** The end of the key. */
  method LastStep(h: Heap, root: Ptr, ghost keys: seq<string>, id: string, join: bool, override: bool, cur: Ptr,
                  ghost l0: Links, ghost c0: Cells, ghost k0: Kids, ghost r0: Ranks,
                  ghost i: nat, ghost j: nat, ghost p: Ptr, ghost chain: seq<Ptr>)
    returns (r: Result, ghost i': nat, ghost p': Ptr, ghost chain': seq<Ptr>, ghost c: Ptr, ghost n: Ptr)
    requires h.Valid() && IsForest(l0, c0, k0, r0) && cur in h.kids && cur in h.cells
    requires Walked(c0, k0, h.cells, h.kids, root, keys, i, j, p, join, chain, cur) && |keys| == j + 1 && id == keys[j]
    modifies h, h.mem
    ensures h.Valid() && !r.Astray? && !Blocked(c0, root, keys)
    ensures r.NotCompound? <==> !override && EndsInScalar(c0, root, keys)
    ensures r.Clash? <==> override && exists m :: ScalarOn(c0, root, keys, m) && c0[m].refcount > 0
    ensures r.NotCompound? ==> h.cells == c0 && h.kids == k0
    ensures r.Clash? ==> ScalarOn(c0, root, keys, c) && Clashed(c0, k0, h.cells, h.kids, p', keys[j], join, c, n)
    ensures r.Made? ==> r.n in h.kids && LeadsTo(h.cells, root, keys, r.n)
    ensures r.Made? ==>
              if EndsInScalar(c0, root, keys) then
                ScalarOn(c0, root, keys, c) && Replaced(c0, k0, h.cells, h.kids, p', keys[j], join, c, r.n)
              else Walked(c0, k0, h.cells, h.kids, root, keys, i', |keys|, p', join, chain', r.n)
  {
    hide Compounds, Rings, Allocated, Up, Down, AllSiblingIds, Ranked, Under, LeadsTo, Missing, Walked, Replaced,
         Clashed, Blocked, WithCell, WithMember;
    ghost var c1, k1 := h.cells, h.kids;
    assert keys[..j] + [id] == keys && keys[..|keys|] == keys;
    i', p', chain' := i, cur, chain;
    WalkNoneYet(c0, k0, c1, k1, root, keys, i, j, p, join, chain, cur);
    r, c, n := Last(h, cur, id, join, override);
    if exists m :: ScalarAt(c1, k1, cur, id, m) {
      AtScalar(l0, c0, k0, r0, root, keys, j, cur, c);
      if r.Made? {
        ReplacedLeads(l0, c0, k0, r0, h.cells, h.kids, root, keys, j, cur, join, c, r.n);
      }
    } else {
      assert !ScalarAt(c1, k1, cur, id, c);
      if exists m :: m in k1[cur] && m in c1 && c1[m].id == Some(id) {
        WalkFound(c0, k0, root, keys, j, p, join, r.n);
        i', p', chain' := j + 1, r.n, [];
        WalkEnds(c0, k0, c0, k0, root, keys, j + 1, r.n, join, [], r.n);
        KindOf(l0, c0, k0, r0, r.n);
        EndClears(l0, c0, k0, r0, root, keys, r.n);
      } else {
        if chain == [] {
          MissingHere(l0, c0, k0, r0, root, keys, j, cur);
        }
        p' := p;
        chain' := chain + [r.n];
        WalkMade(c0, k0, c1, k1, root, keys, i, j, p, join, chain, cur, r.n);
        WalkClears(l0, c0, k0, r0, h.cells, h.kids, root, keys, i, j + 1, p, join, chain', r.n);
      }
    }
    if r.Made? && !EndsInScalar(c0, root, keys) {
      WalkEnds(c0, k0, h.cells, h.kids, root, keys, i', p', join, chain', r.n);
    }
  }

  lemma AtScalar(links: Links, cells: Cells, kids: Kids, rank: Ranks, root: Ptr, keys: seq<string>, j: nat, p: Ptr,
                 c: Ptr)
    requires IsForest(links, cells, kids, rank) && |keys| == j + 1 && LeadsTo(cells, root, keys[..j], p)
    requires ScalarAt(cells, kids, p, keys[j], c)
    ensures ScalarOn(cells, root, keys, c) && EndsInScalar(cells, root, keys) && !Blocked(cells, root, keys)
    ensures forall m | ScalarOn(cells, root, keys, m) :: m == c
  {
    LeadsOn(cells, root, keys[..j], p, keys[j], c);
    assert keys[..j] + [keys[j]] == keys;
    EndClears(links, cells, kids, rank, root, keys, c);
  }

  lemma ReplacedLeads(links: Links, cells: Cells, kids: Kids, rank: Ranks, cells': Cells, kids': Kids,
                      root: Ptr, keys: seq<string>, j: nat, p: Ptr, join: bool, c: Ptr, n: Ptr)
    requires IsForest(links, cells, kids, rank) && |keys| == j + 1 && LeadsTo(cells, root, keys[..j], p) && p in kids
    requires p in cells
    requires Replaced(cells, kids, cells', kids', p, keys[j], join, c, n)
    ensures LeadsTo(cells', root, keys, n)
  {
    assert c !in kids && c != p;
    ReplacedRest(cells, kids, cells', kids', p, keys[j], join, c, n);
    hide Replaced, LeadsTo;
    LeadsStill(cells, cells', root, keys[..j], p, {c});
    LeadsOn(cells', root, keys[..j], p, keys[j], n);
    assert keys[..j] + [keys[j]] == keys;
  }

  lemma ReplacedRest(cells: Cells, kids: Kids, cells': Cells, kids': Kids, p: Ptr, id: string, join: bool, c: Ptr,
                     n: Ptr)
    requires Replaced(cells, kids, cells', kids', p, id, join, c, n)
    ensures forall m | m in cells && m != c :: m in cells' && cells'[m] == cells[m]
    ensures n in cells' && cells'[n].id == Some(id) && cells'[n].parent == Some(p)
  {
  }

  lemma WalkEnds(c0: Cells, k0: Kids, c1: Cells, k1: Kids, root: Ptr, keys: seq<string>, i: nat, p: Ptr, join: bool,
                 chain: seq<Ptr>, cur: Ptr)
    requires Walked(c0, k0, c1, k1, root, keys, i, |keys|, p, join, chain, cur)
    ensures LeadsTo(c1, root, keys, cur)
  {
    assert keys[..|keys|] == keys;
  }
}
