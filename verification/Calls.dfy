/** Runs of the calls on configuration nodes, in any order and with any results. */
module Calls {
  import opened Numbers
  import T = Tree
  import P = Parser
  import M = Merging
  import opened Ring
  import opened Forest
  import opened Substitution
  import opened ConfigHeap
  import opened HeapTree
  import opened HeapMerging
  import opened HeapCopying
  import opened HeapFrame
  import PathMaking
  import A = Aftermath
  import FailedLoads
  import NodeParser

  datatype Call =
    | Make(id: Option<string>, data: Data)
    | Add(parent: Ptr, child: Ptr)
    | AddNextTo(sibling: Ptr, child: Ptr, after: bool)
    | SetId(n: Ptr, id: Option<string>)
    | Remove(n: Ptr)
    | Delete(n: Ptr)
    | MakePath(root: Ptr, key: string, join: bool, override: bool)
    | Merge(dst: Ptr, src: Ptr, override: bool)
    | Copy(src: Ptr)
    | Load(top: Ptr, ld: P.Loader, text: string)

  /** What a call returns: a node, an error code or none, or the outcome of make_path. */
  datatype Return = Node(n: Ptr) | Code(e: Option<Errno>) | Path(r: PathMaking.Result) | Loaded(ok: bool)

  // ----- what a caller has to see to

  /**
   Handles are of live nodes, and compounds where the call asserts one.  Beyond that: nothing is added below itself,
   nothing is deleted that somebody else holds, be it by Delete, Merge or Load, merging meets no pair that substitution
   breaks, and a text does not end in a block inside one that is read over.
   */
  ghost predicate Allowed(s: State, c: Call)
    requires Good(s)
  {
    match c
    case Make(_, _) => true
    case Add(p, n) => p in s.kids && n in s.cells && NotAbove(s, p, n)
    case AddNextTo(sib, n, _) =>
      sib in s.cells && s.cells[sib].parent.Some? && n in s.cells && NotAbove(s, s.cells[sib].parent.value, n)
    case SetId(n, _) => n in s.cells
    case Remove(n) => n in s.cells
    case Delete(n) => n in s.cells && (s.cells[n].refcount == 0 ==> ZeroBelow(s, n))
    case MakePath(root, _, _, _) => root in s.kids
    case Merge(dst, src, override) => Fit(s, dst, src) && CanMerge(s, dst, src, override)
    case Copy(src) => src in s.cells
    case Load(top, ld, text) => top in s.kids && top in s.cells && CanLoad(s, top, ld, text)
  }

  /** A node that can be linked is not above the place it goes to. */
  ghost predicate NotAbove(s: State, p: Ptr, n: Ptr)
    requires Good(s)
  {
    n in s.cells && p in s.cells && (s.cells[n].id.Some? && s.cells[n].parent.None? ==> !Under(s.cells, s.rank, p, n))
  }

  ghost predicate CanMerge(s: State, dst: Ptr, src: Ptr, override: bool)
    requires Fit(s, dst, src)
  {
    forall d, v | Shows(s.cells, s.kids, dst, d) && Shows(s.cells, s.kids, src, v) ::
      && Mergeable(d, v, override) && (!d.Compound? || !v.Compound? ==> IdFits(s.cells, dst, src))
      && Spares(s, dst, src, d, v, override)
  }

  /**
   What the text comes to in the tree is sound: it deletes nothing that is held, and no pointer that was never set.
   */
  ghost predicate CanLoad(s: State, top: Ptr, ld: P.Loader, text: string)
    requires Good(s) && top in s.cells
  {
    forall ks, join | Shows(s.cells, s.kids, top, T.Compound(ks, join)) ::
      A.LeftDefs(ld, ks, text, BusyPaths(s, top)).fate == A.Sound
  }

  /** Loading a text without `?` is allowed wherever nobody holds a node below. */
  lemma PlainLoad(s: State, top: Ptr, ld: P.Loader, text: string)
    requires Good(s) && top in s.cells && ZeroBelow(s, top) && '?' !in text
    ensures CanLoad(s, top, ld, text)
  {
    hide A.LeftDefs, Busy, IsForest, Shows;
    forall path | path in BusyPaths(s, top)
      ensures path == []
    {
      if path != [] {
        OnlyAbove(s, top, path);
      }
    }
    forall ks, join | Shows(s.cells, s.kids, top, T.Compound(ks, join))
      ensures A.LeftDefs(ld, ks, text, BusyPaths(s, top)).fate == A.Sound
    {
      FailedLoads.NoQuestionSound(ld, ks, text, BusyPaths(s, top));
    }
  }

  lemma OnlyAbove(s: State, top: Ptr, path: seq<string>)
    requires Good(s) && top in s.cells && path != [] && BusyAt(s, top, path)
    ensures !ZeroBelow(s, top)
  {
    var c := FirstOnTheWay(s, top, path);
    BusyOnTheWay(s, c, path[1..]);
    var k :| k in Below(s.cells, s.rank, c) && s.cells[k].refcount > 0;
    MemberUnder(s.cells, s.rank, c, top);
    UnderTrans(s.cells, s.rank, k, c, top);
    UnderRank(s.cells, s.rank, k, c);
    assert k in Below(s.cells, s.rank, top) && k != top;
  }

  /** Every node that somebody holds is still there, with its count. */
  ghost predicate HeldKept(s: State, t: State) {
    forall m | m in s.cells && s.cells[m].refcount > 0 :: m in t.cells && t.cells[m].refcount == s.cells[m].refcount
  }

  // ----- what a call does

  ghost predicate Same(s: State, t: State) {
    t.cells == s.cells && t.kids == s.kids
  }

  ghost predicate HasId(s: State, p: Ptr, id: Option<string>, except: Option<Ptr>) {
    p in s.kids && exists m :: m in s.kids[p] && m in s.cells && Some(m) != except && s.cells[m].id == id
  }

  /** Linking n at place k of p, or the reason why not. */
  ghost predicate Linked(s: State, t: State, p: Ptr, k: nat, n: Ptr, e: Option<Errno>)
    requires n in s.cells && p in s.kids
  {
    && (e == Some(EINVAL) <==> s.cells[n].id.None? || s.cells[n].parent.Some?)
    && (e == Some(EEXIST) <==> s.cells[n].id.Some? && s.cells[n].parent.None? && HasId(s, p, s.cells[n].id, None))
    && (e.Some? ==> Same(s, t))
    && (e.None? ==> k <= |s.kids[p]| && t.cells == Adopt(s.cells, n, p) && t.kids == s.kids[p := Insert(s.kids[p], k, n)])
  }

  /** The state after a call and what it returns; no word of forests. */
  ghost predicate Does(s: State, c: Call, r: Return, t: State)
    requires Good(s) && Allowed(s, c)
  {
    match c
    case Make(id, data) =>
      && r.Node? && r.n !in s.cells && t.cells == s.cells[r.n := Cell(id, data, 0, None)]
      && t.kids == if data.Members? then s.kids[r.n := []] else s.kids
    case Add(p, n) => r.Code? && Linked(s, t, p, |s.kids[p]|, n, r.e)
    case AddNextTo(sib, n, after) =>
      var p := s.cells[sib].parent.value;
      r.Code? && exists k: nat :: Beside(s, t, p, k, sib, n, after, r.e)
    case SetId(n, id) =>
      && r.Code?
      && (r.e == Some(EINVAL) <==> id.None? && s.cells[n].parent.Some?)
      && (r.e == Some(EEXIST) <==> id.Some? && s.cells[n].parent.Some? && HasId(s, s.cells[n].parent.value, id, Some(n)))
      && t.kids == s.kids && t.cells == if r.e.Some? then s.cells else s.cells[n := s.cells[n].(id := id)]
    case Remove(n) =>
      && r == Code(None) && t.cells == Orphan(s.cells, n) && t.kids == Unlisted(s.cells, s.kids, n)
    case Delete(n) =>
      && r == Code(None)
      && if s.cells[n].refcount > 0 then
           t.kids == s.kids && t.cells == s.cells[n := s.cells[n].(refcount := s.cells[n].refcount - 1)]
         else
           && t.cells == s.cells - Below(s.cells, s.rank, n)
           && t.kids == Unlisted(s.cells, s.kids, n) - Below(s.cells, s.rank, n)
    case MakePath(root, key, join, override) => r.Path? && PathDone(s, t, root, PathMaking.Keys(key), join, override, r.r)
    case Merge(dst, src, override) =>
      && r == Code(None)
      && exists d, v ::
           && Shows(s.cells, s.kids, dst, d) && Shows(s.cells, s.kids, src, v)
           && Gone(s, t, dst, src, M.Merge(d, v, override))
    case Copy(src) => r.Node? && exists v :: Shows(s.cells, s.kids, src, v) && NewTree(s, t, r.n, v, s.cells[src].id)
    case Load(top, ld, text) =>
      && r.Loaded?
      && exists ks, join ::
           && Shows(s.cells, s.kids, top, T.Compound(ks, join))
           && TextLoaded(s, t, top, ld, text, ks, join, r.ok)
  }

  ghost predicate Beside(s: State, t: State, p: Ptr, k: nat, sib: Ptr, n: Ptr, after: bool, e: Option<Errno>)
    requires n in s.cells && p in s.kids
  {
    k < |s.kids[p]| && s.kids[p][k] == sib && Linked(s, t, p, if after then k + 1 else k, n, e)
  }

  /**
   dst stands for v, src is gone, and everything outside the two trees is as it was, but that src has left its
   siblings.
   */
  ghost predicate Gone(s: State, t: State, dst: Ptr, src: Ptr, v: T.Value)
    requires Good(s)
  {
    && Shows(t.cells, t.kids, dst, v) && src !in t.cells && HeldKept(s, t)
    && Outside(s, t, Zone(s, dst, src), if src in s.cells then Unlisted(s.cells, s.kids, src) else s.kids)
  }

  /** n is new and stands for v; nothing that was there has changed. */
  ghost predicate NewTree(s: State, t: State, n: Ptr, v: T.Value, id: Option<string>) {
    && n !in s.cells && n in t.cells && t.cells[n].id == id && t.cells[n].parent.None?
    && Shows(t.cells, t.kids, n, v) && Outside(s, t, {}, s.kids)
  }

  /** The text has been loaded into top: whether that fails or not, the tree is what the text leaves of it. */
  ghost predicate TextLoaded(s: State, t: State, top: Ptr, ld: P.Loader, text: string, ks: seq<T.Node>, join: bool,
                             ok: bool)
    requires Good(s) && top in s.cells
  {
    && (ok <==> ld.Load(ks, text).Some?)
    && (ok ==> Shows(t.cells, t.kids, top, T.Compound(ld.Load(ks, text).value, join)))
    && Shows(t.cells, t.kids, top, T.Compound(A.LeftDefs(ld, ks, text, BusyPaths(s, top)).kids, join))
    && Outside(s, t, Below(s.cells, s.rank, top), s.kids) && HeldKept(s, t)
  }

  ghost predicate ClashedSome(s: State, t: State, id: string, join: bool) {
    exists p, c, n :: PathMaking.Clashed(s.cells, s.kids, t.cells, t.kids, p, id, join, c, n)
  }

  ghost predicate ReplacedSome(s: State, t: State, id: string, join: bool, n: Ptr) {
    exists p, c :: PathMaking.Replaced(s.cells, s.kids, t.cells, t.kids, p, id, join, c, n)
  }

  /** Each outcome with its cause and its effect. */
  ghost predicate PathDone(s: State, t: State, root: Ptr, keys: seq<string>, join: bool, override: bool,
                           r: PathMaking.Result)
    requires keys != []
  {
    && (r.Astray? <==> PathMaking.Blocked(s.cells, root, keys))
    && (r.NotCompound? <==> !override && PathMaking.EndsInScalar(s.cells, root, keys))
    && (r.Clash? <==> override && exists m :: PathMaking.ScalarOn(s.cells, root, keys, m) && s.cells[m].refcount > 0)
    && (r.Astray? || r.NotCompound? ==> Same(s, t))
    && (r.Clash? ==> ClashedSome(s, t, keys[|keys| - 1], join))
    && (r.Made? ==> r.n in t.kids && PathMaking.LeadsTo(t.cells, root, keys, r.n))
    && (r.Made? && PathMaking.EndsInScalar(s.cells, root, keys) ==>
          ReplacedSome(s, t, keys[|keys| - 1], join, r.n))
    && (r.Made? && !PathMaking.EndsInScalar(s.cells, root, keys) ==>
          exists i: nat, p, chain :: PathMaking.Walked(s.cells, s.kids, t.cells, t.kids, root, keys, i, |keys|, p, join, chain, r.n))
  }

  // ----- the calls

  lemma Position(s: State, n: Ptr) returns (k: nat)
    requires Good(s) && n in s.cells
    ensures s.cells[n].parent.Some? ==>
              var p := s.cells[n].parent.value;
              p in s.cells && p in s.kids && k < |s.kids[p]| && s.kids[p][k] == n && Drop(s.kids[p], k) == Minus(s.kids[p], n)
  {
    k := 0;
    if s.cells[n].parent.Some? {
      var p := s.cells[n].parent.value;
      assert n in s.kids[p];
      k :| 0 <= k < |s.kids[p]| && s.kids[p][k] == n;
      RingOf(s.links, s.kids, p);
      DropIsMinus(s.kids[p], k);
    }
  }

  lemma Alive(s: State)
    requires Good(s)
    ensures forall p | p in s.kids :: p in s.cells
    ensures forall p, m | p in s.kids && m in s.kids[p] :: m in s.cells
  {
  }

  method DoMake(h: Heap, id: Option<string>, data: Data) returns (r: Return)
    requires h.Valid()
    modifies h, h.mem
    ensures h.Valid() && Does(old(Now(h)), Make(id, data), r, Now(h))
  {
    var n := h.Make(id, data);
    r := Node(n);
  }

  method DoAdd(h: Heap, p: Ptr, n: Ptr) returns (r: Return)
    requires h.Valid() && Allowed(Now(h), Add(p, n))
    modifies h, h.mem
    ensures h.Valid() && Does(old(Now(h)), Add(p, n), r, Now(h))
  {
    ghost var s := Now(h);
    Alive(s);
    var e := h.Add(p, n);
    assert Insert(s.kids[p], |s.kids[p]|, n) == s.kids[p] + [n];
    r := Code(e);
  }

  method DoAddNextTo(h: Heap, sib: Ptr, n: Ptr, after: bool) returns (r: Return)
    requires h.Valid() && Allowed(Now(h), AddNextTo(sib, n, after))
    modifies h, h.mem
    ensures h.Valid() && Does(old(Now(h)), AddNextTo(sib, n, after), r, Now(h))
  {
    ghost var s := Now(h);
    Alive(s);
    ghost var k := Position(s, sib);
    var e := h.AddNextTo(sib, n, after, k);
    r := Code(e);
    assert Beside(s, Now(h), s.cells[sib].parent.value, k, sib, n, after, e);
  }

  method DoSetId(h: Heap, n: Ptr, id: Option<string>) returns (r: Return)
    requires h.Valid() && Allowed(Now(h), SetId(n, id))
    modifies h, h.mem
    ensures h.Valid() && Does(old(Now(h)), SetId(n, id), r, Now(h))
  {
    ghost var s := Now(h);
    Alive(s);
    var e := h.SetId(n, id);
    r := Code(e);
  }

  method DoRemove(h: Heap, n: Ptr) returns (r: Return)
    requires h.Valid() && Allowed(Now(h), Remove(n))
    modifies h, h.mem
    ensures h.Valid() && Does(old(Now(h)), Remove(n), r, Now(h))
  {
    ghost var s := Now(h);
    ghost var k := Position(s, n);
    h.Remove(n, k);
    r := Code(None);
  }

  method DoDelete(h: Heap, n: Ptr) returns (r: Return)
    requires h.Valid() && Allowed(Now(h), Delete(n))
    modifies h, h.mem
    ensures h.Valid() && Does(old(Now(h)), Delete(n), r, Now(h))
  {
    ghost var s := Now(h);
    ghost var k := Position(s, n);
    hide Under, Compounds, Rings, Allocated, Up, Down, AllSiblingIds;
    h.Delete(n, k);
    r := Code(None);
  }

  method DoMakePath(h: Heap, root: Ptr, key: string, join: bool, override: bool) returns (r: Return)
    requires h.Valid() && Allowed(Now(h), MakePath(root, key, join, override))
    modifies h, h.mem
    ensures h.Valid() && Does(old(Now(h)), MakePath(root, key, join, override), r, Now(h))
  {
    hide PathMaking.Clashed, PathMaking.Replaced, PathMaking.Walked, PathMaking.Blocked, PathMaking.EndsInScalar,
         PathMaking.LeadsTo, PathMaking.Keys, Compounds, Rings, Allocated, Up, Down, AllSiblingIds, Ranked;
    ghost var s := Now(h);
    Alive(s);
    var q;
    ghost var i, p, chain, c, n;
    q, i, p, chain, c, n := PathMaking.MakePath(h, root, key, join, override);
    r := Path(q);
  }

  method DoMerge(h: Heap, dst: Ptr, src: Ptr, override: bool) returns (r: Return)
    requires h.Valid() && Allowed(Now(h), Merge(dst, src, override))
    modifies h, h.mem
    ensures h.Valid() && Does(old(Now(h)), Merge(dst, src, override), r, Now(h))
  {
    hide Under, IsForest, Shows, Mergeable, M.Merge, Zone, Fit, IdFits, Outside, Unlisted, Spares;
    ghost var s := Now(h);
    FitAlive(s, dst, src);
    ghost var d := ShowsSome(s.links, s.cells, s.kids, s.rank, dst);
    ghost var v := ShowsSome(s.links, s.cells, s.kids, s.rank, src);
    MergeNodes(h, dst, src, override, d, v);
    MergedGone(s, Now(h), dst, src, M.Merge(d, v, override));
    r := Code(None);
  }

  lemma FitAlive(s: State, dst: Ptr, src: Ptr)
    requires Fit(s, dst, src)
    ensures Good(s) && dst in s.cells && src in s.cells
  {
  }

  lemma MergedGone(s: State, t: State, dst: Ptr, src: Ptr, v: T.Value)
    requires Good(s) && dst in s.cells && src in s.cells && Merged(s, t, dst, src, v)
    ensures Gone(s, t, dst, src, v)
  {
  }

  method DoCopy(h: Heap, src: Ptr) returns (r: Return)
    requires h.Valid() && Allowed(Now(h), Copy(src))
    modifies h, h.mem
    ensures h.Valid() && Does(old(Now(h)), Copy(src), r, Now(h))
  {
    hide Under, IsForest, Shows, Outside;
    ghost var s := Now(h);
    ghost var v := ShowsSome(s.links, s.cells, s.kids, s.rank, src);
    var n := CopyNode(h, src, v);
    assert NewTree(s, Now(h), n, v, s.cells[src].id);
    r := Node(n);
  }

  method DoLoad(h: Heap, top: Ptr, ld: P.Loader, text: string) returns (r: Return)
    requires h.Valid() && Allowed(Now(h), Load(top, ld, text))
    modifies h, h.mem
    ensures h.Valid() && Does(old(Now(h)), Load(top, ld, text), r, Now(h))
  {
    hide Under, Compounds, Rings, Allocated, Up, Down, AllSiblingIds, Ranked, Shows, P.Loader.Load, A.LeftDefs;
    ghost var s := Now(h);
    Alive(s);
    ghost var v := ShowsSome(s.links, s.cells, s.kids, s.rank, top);
    KindOf(s, top, v);
    ghost var f := NodeParser.Fixed(v.join, BusyPaths(s, top));
    var e := NodeParser.Load(h, ld, top, text, v.kids, f);
    LoadedWithin(s, Now(h), top, ld, text, v.kids, f, e.Whole?);
    r := Loaded(e.Whole?);
  }

  lemma KindOf(s: State, n: Ptr, v: T.Value)
    requires Good(s) && n in s.kids && Shows(s.cells, s.kids, n, v)
    ensures v.Compound? && v == T.Compound(v.kids, v.join)
  {
  }

  lemma LoadedWithin(s: State, t: State, top: Ptr, ld: P.Loader, text: string, ks: seq<T.Node>, f: NodeParser.Fixed,
                     ok: bool)
    requires Within(s, t, top) && f.held == BusyPaths(s, top) && (ok <==> ld.Load(ks, text).Some?)
    requires ok ==> NodeParser.Open(t, top, ld.Load(ks, text).value, f)
    requires NodeParser.Open(t, top, A.LeftDefs(ld, ks, text, f.held).kids, f)
    ensures TextLoaded(s, t, top, ld, text, ks, f.join, ok)
  {
    hide P.Loader.Load, Shows, A.LeftDefs, BusyPaths, Busy, Outside;
    forall m | m in s.cells && s.cells[m].refcount > 0
      ensures m in t.cells && t.cells[m].refcount == s.cells[m].refcount
    {
      HeldIsBusy(s, m);
    }
  }

  lemma HeldIsBusy(s: State, m: Ptr)
    requires Good(s) && m in s.cells && s.cells[m].refcount > 0
    ensures Busy(s, m)
  {
    assert m in Below(s.cells, s.rank, m);
  }

  /** One call. */
  method Perform(h: Heap, c: Call) returns (r: Return)
    requires h.Valid() && Allowed(Now(h), c)
    modifies h, h.mem
    ensures h.Valid() && Does(old(Now(h)), c, r, Now(h))
  {
    hide Does, Allowed;
    match c {
      case Make(id, data) => r := DoMake(h, id, data);
      case Add(p, n) => r := DoAdd(h, p, n);
      case AddNextTo(sib, n, after) => r := DoAddNextTo(h, sib, n, after);
      case SetId(n, id) => r := DoSetId(h, n, id);
      case Remove(n) => r := DoRemove(h, n);
      case Delete(n) => r := DoDelete(h, n);
      case MakePath(root, key, join, override) => r := DoMakePath(h, root, key, join, override);
      case Merge(dst, src, override) => r := DoMerge(h, dst, src, override);
      case Copy(src) => r := DoCopy(h, src);
      case Load(top, ld, text) => r := DoLoad(h, top, ld, text);
    }
  }

  // ----- every run

  /** A program that makes calls: what comes next depends on what the calls so far have returned. */
  type Client = seq<Return> -> Option<Call>

  /** For n calls, whatever they return and leave behind, the client sees to what the next one asks for. */
  ghost predicate Careful(s: State, client: Client, past: seq<Return>, n: nat)
    decreases n
  {
    n > 0 && client(past).Some? && Good(s) ==>
      && Allowed(s, client(past).value)
      && forall r, t | Good(t) && Does(s, client(past).value, r, t) :: Careful(t, client, past + [r], n - 1)
  }

  /**
   states are those of a run: each is a forest, and each follows from the one before by the call the client makes
   there.
   */
  ghost predicate IsRun(states: seq<State>, client: Client, past: seq<Return>) {
    && |states| == |past| + 1
    && (forall i :: 0 <= i < |states| ==> Good(states[i]))
    && (forall i :: 0 <= i < |past| ==> Follows(states[i], client(past[..i]), past[i], states[i + 1]))
  }

  ghost predicate Follows(s: State, c: Option<Call>, r: Return, t: State) {
    Good(s) && c.Some? && Allowed(s, c.value) && Does(s, c.value, r, t)
  }

  lemma RunGrows(states: seq<State>, client: Client, past: seq<Return>, r: Return, t: State)
    requires IsRun(states, client, past) && Good(t) && Follows(states[|past|], client(past), r, t)
    ensures IsRun(states + [t], client, past + [r])
  {
    hide Follows, Good;
    var states', past' := states + [t], past + [r];
    forall i | 0 <= i < |past'|
      ensures Follows(states'[i], client(past'[..i]), past'[i], states'[i + 1])
    {
      if i < |past| {
        assert past'[..i] == past[..i];
      } else {
        assert past'[..i] == past;
      }
    }
  }

  /** In every run of a careful client, of whatever calls and however they end, every state is a forest. */
  method Run(h: Heap, client: Client, n: nat) returns (past: seq<Return>, ghost states: seq<State>)
    requires h.Valid() && Careful(Now(h), client, [], n)
    modifies h, h.mem
    ensures h.Valid() && IsRun(states, client, past)
    ensures states[0] == old(Now(h)) && states[|past|] == Now(h)
    ensures |past| <= n && (|past| < n ==> client(past).None?)
  {
    hide Does, Allowed, Good;
    past, states := [], [Now(h)];
    assert Good(Now(h)) by { ValidIsGood(h); }
    while |past| < n
      invariant h.Valid() && |past| <= n && Careful(Now(h), client, past, n - |past|)
      invariant IsRun(states, client, past) && states[0] == old(Now(h)) && states[|past|] == Now(h)
      decreases n - |past|
    {
      var c := client(past);
      if c.None? {
        return;
      }
      ghost var s := Now(h);
      var r := Perform(h, c.value);
      ValidIsGood(h);
      RunGrows(states, client, past, r, Now(h));
      past, states := past + [r], states + [Now(h)];
    }
  }

  lemma ValidIsGood(h: Heap)
    requires h.Valid()
    ensures Good(Now(h))
  {
  }
}
