/** The cache of plugin symbols (dlmisc.c:310-452). */
module SymbolCache {
  import opened Numbers
  import opened Ring

  /** The address of a function. */
  type Func = nat

  datatype Key = Key(lib: Option<string>, name: string)

  datatype Slot = Slot(key: Key, func: Func, refcnt: nat)

  /** dlopen and dlsym, as a function of library and name. */
  type Resolver = Key -> Option<Func>

  // ----- what the calls do to the list

  /** The first slot with the key, or |slots|. */
  function IndexOf(slots: seq<Slot>, key: Key): (i: nat)
    ensures i <= |slots|
    ensures i < |slots| ==> slots[i].key == key
    ensures forall j :: 0 <= j < i ==> slots[j].key != key
  {
    if slots == [] || slots[0].key == key then 0 else 1 + IndexOf(slots[1..], key)
  }

  function IndexOfFunc(slots: seq<Slot>, f: Func): (i: nat)
    ensures i <= |slots|
    ensures i < |slots| ==> slots[i].func == f
    ensures forall j :: 0 <= j < i ==> slots[j].func != f
  {
    if slots == [] || slots[0].func == f then 0 else 1 + IndexOfFunc(slots[1..], f)
  }

  /** get adds one reference and get2 two; a symbol that cannot be resolved leaves no trace. */
  function AfterGet(slots: seq<Slot>, key: Key, resolve: Resolver, refs: nat): seq<Slot> {
    var i := IndexOf(slots, key);
    if i < |slots| then slots[i := slots[i].(refcnt := slots[i].refcnt + refs)]
    else
      match resolve(key)
      case None => slots
      case Some(f) => slots + [Slot(key, f, refs)]
  }

  function AfterPut(slots: seq<Slot>, f: Func): seq<Slot> {
    var i := IndexOfFunc(slots, f);
    if i < |slots| && slots[i].refcnt > 0 then slots[i := slots[i].(refcnt := slots[i].refcnt - 1)] else slots
  }

  function AfterCleanup(slots: seq<Slot>): seq<Slot> {
    if slots == [] then []
    else (if slots[0].refcnt == 0 then [] else [slots[0]]) + AfterCleanup(slots[1..])
  }

  datatype PutResult = Last | StillUsed | NotFound

  /** The slots of a list of objects. */
  ghost function Shown(objs: map<Ptr, Slot>, list: seq<Ptr>): (r: seq<Slot>)
    requires forall p | p in list :: p in objs
    ensures |r| == |list| && forall i :: 0 <= i < |list| ==> list[i] in objs && r[i] == objs[list[i]]
  {
    seq(|list|, i requires 0 <= i < |list| => assert list[i] in list; objs[list[i]])
  }

  /** The objects in memory, linked into one ring; its head is the list_head of object 0, which is none. */
  class Cache {
    const mem: LinkMemory
    var objs: map<Ptr, Slot>
    var brk: Ptr
    ghost var list: seq<Ptr>

    ghost predicate Valid()
      reads this, mem
    {
      && IsRing(mem.links, 0, list) && brk > 0
      && (forall p :: p in objs <==> p in list)
      && (forall p | p in objs :: 0 < p < brk)
      && (forall l :: l in mem.links <==> l == Fields(0) || (l.Entry? && l.p in objs))
    }

    ghost function Slots(): seq<Slot>
      requires Valid()
      reads this, mem
    {
      Shown(objs, list)
    }

    constructor ()
      ensures Valid() && fresh(mem) && Slots() == []
    {
      mem := new LinkMemory();
      objs, brk, list := map[], 1, [];
      new;
      mem.links := map[Fields(0) := Ends(Fields(0), Fields(0))];
      RingEmpty(mem.links, 0);
    }

    /** The loop that compares library and name; the head of the list is where it ends without a match. */
    method FindKey(key: Key) returns (pos: Link, ghost i: nat)
      requires Valid()
      ensures pos == At(0, list, IndexOf(Slots(), key) + 1) && (pos == Fields(0) <==> IndexOf(Slots(), key) == |list|)
      ensures i == IndexOf(Slots(), key)
    {
      hide IsRing;
      i := 0;
      Next(0);
      pos := mem.links[Fields(0)].next;
      while pos != Fields(0)
        invariant 0 <= i <= |list| && pos == At(0, list, i + 1)
        invariant forall j :: 0 <= j < i ==> Slots()[j].key != key
        decreases |list| - i
      {
        Next(i + 1);
        assert list[i] in list;
        if objs[pos.p].key == key {
          return;
        }
        pos := mem.links[pos].next;
        i := i + 1;
      }
    }

    /** The loop that compares functions. */
    method FindFunc(f: Func) returns (pos: Link, ghost i: nat)
      requires Valid()
      ensures pos == At(0, list, IndexOfFunc(Slots(), f) + 1) && (pos == Fields(0) <==> IndexOfFunc(Slots(), f) == |list|)
      ensures i == IndexOfFunc(Slots(), f)
    {
      hide IsRing;
      i := 0;
      Next(0);
      pos := mem.links[Fields(0)].next;
      while pos != Fields(0)
        invariant 0 <= i <= |list| && pos == At(0, list, i + 1)
        invariant forall j :: 0 <= j < i ==> Slots()[j].func != f
        decreases |list| - i
      {
        Next(i + 1);
        assert list[i] in list;
        if objs[pos.p].func == f {
          return;
        }
        pos := mem.links[pos].next;
        i := i + 1;
      }
    }

    /** snd_dlobj_cache_get0 with the number of references that get or get2 leaves. */
    method Acquire(key: Key, resolve: Resolver, refs: nat) returns (f: Option<Func>)
      requires Valid() && refs > 0
      modifies this, mem
      ensures Valid() && Slots() == AfterGet(old(Slots()), key, resolve, refs)
      ensures f.Some? ==> exists s :: s in Slots() && s.key == key && s.func == f.value
      ensures f.None? ==> Slots() == old(Slots()) && resolve(key) == None
    {
      hide IsRing, IndexOf;
      ghost var slots := Slots();
      var pos;
      ghost var i;
      pos, i := FindKey(key);
      if pos != Fields(0) {
        f := Some(objs[pos.p].func);
        Recount(pos.p, objs[pos.p].refcnt + refs, i);
        assert Slots()[i] in Slots();
        return;
      }
      f := resolve(key);
      if f.Some? {
        Append(Slot(key, f.value, refs));
        assert Slots()[|slots|] in Slots();
      }
    }

    /** A new count for the i-th object. */
    method Recount(p: Ptr, refcnt: nat, ghost i: nat)
      requires Valid() && i < |list| && p == list[i] && p in objs
      modifies this`objs
      ensures Valid() && Slots() == old(Slots())[i := old(objs)[p].(refcnt := refcnt)]
    {
      ghost var slots := Slots();
      objs := objs[p := objs[p].(refcnt := refcnt)];
      forall j | 0 <= j < |list| && j != i
        ensures list[j] != p
      {
        assert Distinct(list);
      }
      assert Slots() == slots[i := objs[p]];
    }

    /** malloc, and list_add_tail. */
    method Append(s: Slot)
      requires Valid()
      modifies this, mem
      ensures Valid() && Slots() == old(Slots()) + [s]
    {
      hide IsRing;
      var n := brk;
      ghost var slots := Slots();
      Tail();
      ghost var links := mem.links[Entry(n) := Ends(Entry(n), Entry(n))];
      RingFrame(mem.links, links, 0, list);
      RingInsert(links, 0, list, |list|, n);
      assert Insert(list, |list|, n) == list + [n];
      mem.links := mem.links[Entry(n) := Ends(Entry(n), Entry(n))];
      mem.ListAddTail(Entry(n), Fields(0));
      objs, brk, list := objs[n := s], brk + 1, list + [n];
      assert Slots() == slots + [s];
    }

    /** The head leads to the last object. */
    lemma Tail()
      requires Valid()
      ensures Fields(0) in mem.links && mem.links[Fields(0)].prev == At(0, list, |list|)
      ensures At(0, list, |list|) in mem.links
      ensures At(0, list, |list| + 1) == Fields(0)
    {
      assert Linked(mem.links, 0, list, |list|);
    }

    /** snd_dlobj_cache_put */
    method Put(f: Func) returns (r: PutResult)
      requires Valid()
      modifies this`objs
      ensures Valid() && Slots() == AfterPut(old(Slots()), f)
      ensures r == NotFound <==> forall s | s in old(Slots()) :: s.func != f
      ensures r == Last <==>
                var i := IndexOfFunc(old(Slots()), f);
                i < |old(Slots())| && old(Slots())[i].refcnt == 1
    {
      hide IsRing, IndexOfFunc;
      ghost var slots := Slots();
      var pos;
      ghost var i;
      pos, i := FindFunc(f);
      if pos == Fields(0) {
        return NotFound;
      }
      assert slots[i] in slots;
      var refcnt := objs[pos.p].refcnt;
      if refcnt > 0 {
        Recount(pos.p, refcnt - 1, i);
      }
      return if refcnt == 1 then Last else StillUsed;
    }

    /** list_for_each_safe, which goes on from a saved successor while objects are unlinked and freed. */
    method Cleanup()
      requires Valid()
      modifies this, mem
      ensures Valid() && Slots() == AfterCleanup(old(Slots()))
    {
      hide AfterCleanup, IsRing;
      ghost var i := 0;
      assert Slots()[0..] == Slots() && Slots()[..0] == [] && [] + AfterCleanup(Slots()) == AfterCleanup(Slots());
      Next(0);
      var pos := mem.links[Fields(0)].next;
      while pos != Fields(0)
        invariant Valid() && 0 <= i <= |list| && pos == At(0, list, i + 1)
        invariant Slots()[..i] + AfterCleanup(Slots()[i..]) == AfterCleanup(old(Slots()))
        decreases |list| - i
      {
        Next(i + 1);
        assert list[i] in list;
        var npos := mem.links[pos].next;
        CleanupStep(Slots(), i);
        if objs[pos.p].refcnt == 0 {
          Unlink(pos.p, i);
        } else {
          i := i + 1;
        }
        pos := npos;
      }
      NothingToClean();
      assert Slots()[..i] == Slots() && Slots()[i..] == [];
    }

    /** Where the k-th list_head leads. */
    lemma Next(k: nat)
      requires Valid() && k <= |list|
      ensures At(0, list, k) in mem.links && mem.links[At(0, list, k)].next == At(0, list, k + 1)
    {
      assert Linked(mem.links, 0, list, k);
    }

    /** list_del and free. */
    method Unlink(p: Ptr, ghost i: nat)
      requires Valid() && i < |list| && p == list[i]
      modifies this`objs, this`list, mem
      ensures Valid() && list == Drop(old(list), i)
      ensures Slots() == old(Slots())[..i] + old(Slots())[i + 1..]
    {
      ghost var left := Drop(list, i);
      assert p in list;
      RingWithout(mem.links, list, i);
      LeftOver(list, i);
      ShownLeft(objs, list, i);
      hide IsRing, Distinct, Removed, Drop;
      mem.ListDel(Entry(p));
      mem.links := mem.links - {Entry(p)};
      objs := objs - {p};
      list := left;
    }
  }

  /** The ring once an entry has been unlinked and its memory given back. */
  lemma RingWithout(links: Links, list: seq<Ptr>, i: nat)
    requires IsRing(links, 0, list) && i < |list|
    ensures var c := Entry(list[i]);
            && c in links && links[c].prev in links && links[c].next in links
            && links[c].prev != c && links[c].next != c
            && IsRing(Removed(links, c) - {c}, 0, Drop(list, i))
  {
    RingRemove(links, 0, list, i);
    LeftOver(list, i);
    hide IsRing, Removed;
    var c := Entry(list[i]);
    RingFrame(Removed(links, c), Removed(links, c) - {c}, 0, Drop(list, i));
  }

  lemma LeftOver(list: seq<Ptr>, i: nat)
    requires i < |list| && Distinct(list)
    ensures forall q :: q in Drop(list, i) <==> q in list && q != list[i]
  {
    var d := Drop(list, i);
    forall q
      ensures q in d <==> q in list && q != list[i]
    {
      if q in list && q != list[i] {
        var j :| 0 <= j < |list| && list[j] == q;
        assert d[if j < i then j else j - 1] == q;
      }
      if q in d {
        var j :| 0 <= j < |d| && d[j] == q;
        assert list[if j < i then j else j + 1] == q;
      }
    }
  }

  lemma ShownLeft(objs: map<Ptr, Slot>, list: seq<Ptr>, i: nat)
    requires (forall p | p in list :: p in objs) && i < |list| && Distinct(list)
    ensures forall p | p in Drop(list, i) :: p in objs - {list[i]}
    ensures Shown(objs - {list[i]}, Drop(list, i)) == Shown(objs, list)[..i] + Shown(objs, list)[i + 1..]
  {
    LeftOver(list, i);
  }

  /** A symbol that is there is given out as it is, whatever version is asked for: the search does not look at it. */
  lemma VersionIgnored(slots: seq<Slot>, key: Key, resolve: Resolver, other: Resolver, refs: nat)
    ensures AfterGet(slots, key, resolve, refs) == AfterGet(slots, key, other, refs) <==>
              IndexOf(slots, key) < |slots| || resolve(key) == other(key)
  {
    if IndexOf(slots, key) == |slots| {
      match (resolve(key), other(key))
      case (Some(f), Some(g)) =>
        assert AfterGet(slots, key, resolve, refs)[|slots|] == Slot(key, f, refs);
        assert AfterGet(slots, key, other, refs)[|slots|] == Slot(key, g, refs);
      case (Some(f), None) => assert |AfterGet(slots, key, resolve, refs)| == |slots| + 1;
      case (None, Some(g)) => assert |AfterGet(slots, key, other, refs)| == |slots| + 1;
      case (None, None) =>
    }
  }

  lemma NothingToClean()
    ensures AfterCleanup([]) == []
  {
  }

  /** One slot unlinked, or passed over. */
  lemma CleanupStep(slots: seq<Slot>, i: nat)
    requires i < |slots|
    ensures slots[i].refcnt == 0 ==>
              var gone := slots[..i] + slots[i + 1..];
              gone[..i] + AfterCleanup(gone[i..]) == slots[..i] + AfterCleanup(slots[i..])
    ensures slots[i].refcnt != 0 ==> slots[..i + 1] + AfterCleanup(slots[i + 1..]) == slots[..i] + AfterCleanup(slots[i..])
  {
    var head, rest := slots[..i], slots[i..];
    assert rest[1..] == slots[i + 1..] && rest[0] == slots[i];
    if slots[i].refcnt == 0 {
      var gone := slots[..i] + slots[i + 1..];
      assert gone[..i] == head && gone[i..] == rest[1..];
    } else {
      assert slots[..i + 1] == head + [rest[0]];
      assert head + ([rest[0]] + AfterCleanup(rest[1..])) == head + [rest[0]] + AfterCleanup(rest[1..]);
    }
  }

  // ----- every run

  datatype Call = Get(key: Key, refs: nat) | PutBack(f: Func) | Clean

  function Step(slots: seq<Slot>, c: Call, resolve: Resolver): seq<Slot> {
    match c
    case Get(key, refs) => AfterGet(slots, key, resolve, refs)
    case PutBack(f) => AfterPut(slots, f)
    case Clean => AfterCleanup(slots)
  }

  function Run(calls: seq<Call>, resolve: Resolver): seq<Slot> {
    if calls == [] then [] else Step(Run(calls[..|calls| - 1], resolve), calls[|calls| - 1], resolve)
  }

  /** References taken and not given back; a put without one outstanding does not count. */
  function Outstanding(calls: seq<Call>, key: Key, resolve: Resolver): nat {
    if calls == [] then 0
    else
      var n := Outstanding(calls[..|calls| - 1], key, resolve);
      match calls[|calls| - 1]
      case Get(k, refs) => if k == key && resolve(key).Some? then n + refs else n
      case PutBack(f) => if resolve(key) == Some(f) && n > 0 then n - 1 else n
      case Clean => n
  }

  /** Different symbols have different functions. */
  ghost predicate Injective(resolve: Resolver) {
    forall a, b | resolve(a).Some? && resolve(a) == resolve(b) :: a == b
  }

  /** At most one slot for each key, each with the function that the resolver gives. */
  ghost predicate Consistent(slots: seq<Slot>, resolve: Resolver) {
    && (forall i, j :: 0 <= i < j < |slots| ==> slots[i].key != slots[j].key)
    && (forall i :: 0 <= i < |slots| ==> resolve(slots[i].key) == Some(slots[i].func))
  }

  /** The references the cache knows for a key. */
  function Count(slots: seq<Slot>, key: Key): nat {
    var i := IndexOf(slots, key);
    if i < |slots| then slots[i].refcnt else 0
  }

  lemma GetConsistent(slots: seq<Slot>, key: Key, resolve: Resolver, refs: nat)
    requires Consistent(slots, resolve)
    ensures Consistent(AfterGet(slots, key, resolve, refs), resolve)
  {
  }

  lemma PutConsistent(slots: seq<Slot>, f: Func, resolve: Resolver)
    requires Consistent(slots, resolve)
    ensures Consistent(AfterPut(slots, f), resolve)
  {
  }

  lemma {:induction false} CleanupKeeps(slots: seq<Slot>, s: Slot)
    ensures s in AfterCleanup(slots) <==> s in slots && s.refcnt > 0
  {
    if slots != [] {
      CleanupKeeps(slots[1..], s);
      assert slots == [slots[0]] + slots[1..];
    }
  }

  lemma {:induction false} CleanupConsistent(slots: seq<Slot>, resolve: Resolver)
    requires Consistent(slots, resolve)
    ensures Consistent(AfterCleanup(slots), resolve)
  {
    if slots != [] {
      CleanupConsistent(slots[1..], resolve);
      forall j | 0 <= j < |AfterCleanup(slots[1..])|
        ensures AfterCleanup(slots[1..])[j].key != slots[0].key
      {
        var s := AfterCleanup(slots[1..])[j];
        CleanupKeeps(slots[1..], s);
        var i :| 0 <= i < |slots[1..]| && slots[1..][i] == s;
        assert slots[i + 1] == s;
      }
    }
  }

  lemma IndexUnique(slots: seq<Slot>, i: nat)
    requires i < |slots| && forall a, b :: 0 <= a < b < |slots| ==> slots[a].key != slots[b].key
    ensures IndexOf(slots, slots[i].key) == i
  {
  }

  lemma GetCounts(slots: seq<Slot>, key: Key, resolve: Resolver, refs: nat, k: Key)
    requires Consistent(slots, resolve)
    ensures Count(AfterGet(slots, key, resolve, refs), k)
         == Count(slots, k) + (if k == key && resolve(k).Some? then refs else 0)
  {
    var i, after := IndexOf(slots, key), AfterGet(slots, key, resolve, refs);
    GetConsistent(slots, key, resolve, refs);
    var j := IndexOf(slots, k);
    if j < |slots| {
      assert after[j].key == k;
      IndexUnique(after, j);
    } else if k == key && resolve(k).Some? {
      assert after[|slots|].key == k;
      IndexUnique(after, |slots|);
    } else {
      assert forall m :: 0 <= m < |after| ==> after[m].key != k;
    }
  }

  lemma PutCounts(slots: seq<Slot>, f: Func, resolve: Resolver, k: Key)
    requires Consistent(slots, resolve) && Injective(resolve)
    ensures Count(AfterPut(slots, f), k)
         == if resolve(k) == Some(f) && Count(slots, k) > 0 then Count(slots, k) - 1 else Count(slots, k)
  {
    var i, j, after := IndexOfFunc(slots, f), IndexOf(slots, k), AfterPut(slots, f);
    PutConsistent(slots, f, resolve);
    if j < |slots| {
      assert after[j].key == k;
      IndexUnique(after, j);
      if slots[j].func == f && i < |slots| {
        assert slots[i].key == slots[j].key;
      }
    } else {
      assert forall m :: 0 <= m < |after| ==> after[m].key != k;
    }
  }

  lemma CleanupCounts(slots: seq<Slot>, resolve: Resolver, k: Key)
    requires Consistent(slots, resolve)
    ensures Count(AfterCleanup(slots), k) == Count(slots, k)
  {
    hide AfterCleanup, IndexOf;
    var after := AfterCleanup(slots);
    CleanupConsistent(slots, resolve);
    var i, j := IndexOf(after, k), IndexOf(slots, k);
    if i < |after| {
      CleanupKeeps(slots, after[i]);
      var m :| 0 <= m < |slots| && slots[m] == after[i];
      IndexUnique(slots, m);
    } else if j < |slots| {
      CleanupKeeps(slots, slots[j]);
      assert forall m :: 0 <= m < |after| ==> after[m].key != k;
    }
  }

  /** In every run the cache agrees with direct lookup and its counts with the references outstanding. */
  lemma {:induction false} RunMeaning(calls: seq<Call>, resolve: Resolver, k: Key)
    requires Injective(resolve)
    ensures Consistent(Run(calls, resolve), resolve)
    ensures Count(Run(calls, resolve), k) == Outstanding(calls, k, resolve)
    decreases |calls|
  {
    if calls != [] {
      var before := calls[..|calls| - 1];
      var slots := Run(before, resolve);
      RunMeaning(before, resolve, k);
      match calls[|calls| - 1]
      case Get(key, refs) =>
        GetConsistent(slots, key, resolve, refs);
        GetCounts(slots, key, resolve, refs, k);
      case PutBack(f) =>
        PutConsistent(slots, f, resolve);
        PutCounts(slots, f, resolve, k);
      case Clean =>
        CleanupConsistent(slots, resolve);
        CleanupCounts(slots, resolve, k);
    }
  }

  /**
   What a hit returns is what the resolver would; put gives 0 exactly on the last reference; cleanup drops what has
   none.
   */
  lemma RunObservations(calls: seq<Call>, resolve: Resolver, k: Key)
    requires Injective(resolve)
    ensures var slots := Run(calls, resolve);
            && (forall s | s in slots :: resolve(s.key) == Some(s.func))
            && (resolve(k).Some? ==>
                  var i := IndexOfFunc(slots, resolve(k).value);
                  (i < |slots| && slots[i].refcnt == 1) <==> Outstanding(calls, k, resolve) == 1)
            && (forall s :: s in AfterCleanup(slots) <==> s in slots && Outstanding(calls, s.key, resolve) > 0)
  {
    var slots := Run(calls, resolve);
    RunMeaning(calls, resolve, k);
    if resolve(k).Some? {
      var i := IndexOfFunc(slots, resolve(k).value);
      if i < |slots| {
        assert slots[i].key == k;
        IndexUnique(slots, i);
      }
    }
    forall s
      ensures s in AfterCleanup(slots) <==> s in slots && Outstanding(calls, s.key, resolve) > 0
    {
      CleanupKeeps(slots, s);
      RunMeaning(calls, resolve, s.key);
      if s in slots {
        var m :| 0 <= m < |slots| && slots[m] == s;
        IndexUnique(slots, m);
      }
    }
  }
}
