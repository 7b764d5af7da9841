/** The parser on nodes in memory (conf.c:1184-1531): what it makes of the tree is what Parser says. */
module NodeParser {
  import opened Numbers
  import opened Lexer
  import opened InputStream
  import opened LexerMachine
  import T = Tree
  import opened Parser
  import opened Skipping
  import opened Aftermath
  import opened Ring
  import opened Forest
  import opened ConfigHeap
  import opened HeapTree
  import opened HeapMerging
  import opened HeapFrame

  // ----- steps on one compound

  /** What parsing does not change of a compound: its join flag, and the paths from it to what somebody holds. */
  datatype Fixed = Fixed(join: bool, held: Paths)

  /** p stands for a compound with these children. */
  ghost predicate Open(s: State, p: Ptr, ks: seq<T.Node>, f: Fixed) {
    && Good(s) && p in s.cells && p in s.kids && Shows(s.cells, s.kids, p, T.Compound(ks, f.join))
    && f.held == BusyPaths(s, p)
  }

  lemma WithinOpen(s: State, t: State, p: Ptr, before: seq<T.Node>, ks: seq<T.Node>, f: Fixed)
    requires Open(s, p, before, f) && Within(s, t, p) && Shows(t.cells, t.kids, p, T.Compound(ks, f.join))
    ensures Open(t, p, ks, f)
  {
    SteadyPaths(s, t, p);
  }

  lemma OpenSelf(s: State, p: Ptr, ks: seq<T.Node>, f: Fixed)
    requires Open(s, p, ks, f)
    ensures Within(s, s, p)
  {
    WithinSelf(s, p);
  }

  /** _snd_config_make_add for an id that is not there. */
  method AppendNode(h: Heap, p: Ptr, id: string, data: Data, ghost ks: seq<T.Node>, ghost f: Fixed, ghost v: T.Value)
    returns (n: Ptr)
    requires h.Valid() && Open(Now(h), p, ks, f) && T.Find(ks, id).None?
    requires if data.Members? then v == T.Compound([], data.join) else v == data.value && !v.Compound?
    modifies h, h.mem
    ensures h.Valid() && Within(old(Now(h)), Now(h), p) && Open(Now(h), p, ks + [T.Node(id, v)], f)
    ensures n in h.cells && p in h.kids && h.kids[p] == old(h.kids)[p] + [n] && Shows(h.cells, h.kids, n, v)
    ensures n !in old(h.cells)
  {
    hide IsForest, Under, Shows, Within;
    ghost var a := Now(h);
    AbsentIsFree(a, p, T.Compound(ks, f.join), id);
    n := h.Make(Some(id), data);
    ghost var b := Now(h);
    AppendReady(a, b, p, n, id, data);
    hide IdFree;
    h.LinkLast(p, n);
    assert AddedLast(a, Now(h), p, n, id, data);
    AddedWithin(a, Now(h), p, n, id, data);
    AddedShows(a, Now(h), p, n, id, data, v, ks, f.join);
    WithinOpen(a, Now(h), p, ks, ks + [T.Node(id, v)], f);
  }

  lemma AppendReady(a: State, b: State, p: Ptr, n: Ptr, id: string, data: Data)
    requires Good(a) && Good(b) && p in a.kids && p in a.cells && n !in a.cells && IdFree(a.cells, a.kids[p], Some(id))
    requires b.cells == a.cells[n := Cell(Some(id), data, 0, None)]
    requires b.kids == if data.Members? then a.kids[n := []] else a.kids
    ensures p != n && p in b.kids && b.kids[p] == a.kids[p] && !Under(b.cells, b.rank, p, n)
    ensures IdFree(b.cells, b.kids[p], Some(id))
  {
    assert n !in a.kids && p != n;
    forall i | 0 <= i < |a.kids[p]|
      ensures a.kids[p][i] != n
    {
      assert a.kids[p][i] in a.kids[p];
    }
    assert SameOutside(a.cells, b.cells, {});
    OutsideUnder(a.cells, a.rank, b.cells, b.rank, {}, p, n);
    if Under(a.cells, a.rank, p, n) {
      UnderRank(a.cells, a.rank, p, n);
    }
  }

  /** snd_config_delete of a member. */
  method DropMember(h: Heap, p: Ptr, c: Ptr, ghost i: nat, ghost ks: seq<T.Node>, ghost f: Fixed)
    requires h.Valid() && Open(Now(h), p, ks, f) && i < |ks| && i < |h.kids[p]| && h.kids[p][i] == c
    requires [ks[i].id] !in f.held
    modifies h, h.mem
    ensures h.Valid() && Within(old(Now(h)), Now(h), p) && Open(Now(h), p, T.Delete(ks, i), f)
  {
    ghost var a := Now(h);
    DropReady(a, p, ks, f, i);
    hide IsForest, Under, Shows, Within, Below, Busy;
    h.Delete(c, i);
    assert MemberGone(a, Now(h), p, i);
    GoneWithin(a, Now(h), p, i);
    GoneShows(a, Now(h), p, i, ks, f.join);
    WithinOpen(a, Now(h), p, ks, T.Delete(ks, i), f);
  }

  lemma DropReady(a: State, p: Ptr, ks: seq<T.Node>, f: Fixed, i: nat)
    requires Open(a, p, ks, f) && i < |ks| && [ks[i].id] !in f.held
    ensures i < |a.kids[p]|
    ensures var c := a.kids[p][i];
            && c in a.cells && a.cells[c].parent == Some(p) && a.cells[c].refcount == 0 && !Busy(a, c)
            && forall m | m in Below(a.cells, a.rank, c) :: a.cells[m].refcount == 0
  {
    ChildFacts(a, p, ks, f, i);
    var c := a.kids[p][i];
    NotBusy(a, p, c, ks[i].id);
    assert c in Below(a.cells, a.rank, c);
  }

  /** The path of one id leads to the member with that id. */
  lemma NotBusy(s: State, p: Ptr, c: Ptr, id: string)
    requires Good(s) && p in s.cells && c in s.cells && s.cells[c].parent == Some(p) && s.cells[c].id == Some(id)
    ensures Busy(s, c) <==> [id] in BusyPaths(s, p)
  {
    hide Busy, IsForest;
    MemberPaths(s, p, c, id);
    assert [id] + [] == [id];
    assert [] in BusyPaths(s, c) <==> [] in T.PathsIn(BusyPaths(s, p), id);
  }

  // ----- members

  lemma ChildFacts(s: State, p: Ptr, ks: seq<T.Node>, f: Fixed, i: nat)
    requires Open(s, p, ks, f) && i < |ks|
    ensures i < |s.kids[p]|
    ensures var c := s.kids[p][i];
            && c in s.cells && c in s.kids[p] && s.cells[c].id == Some(ks[i].id) && s.cells[c].parent == Some(p)
            && Shows(s.cells, s.kids, c, ks[i].value) && Under(s.cells, s.rank, c, p)
            && (ks[i].value.Compound? <==> s.cells[c].data.Members?)
            && (ks[i].value.Compound? ==> c in s.kids)
            && (!ks[i].value.Compound? ==> s.cells[c].data == Scalar(ks[i].value))
  {
    ShowsMembersOf(s, p, ks, f);
    var c := s.kids[p][i];
    assert ShowsNode(s.cells, s.kids, c, ks[i]) && c in s.kids[p];
    MemberUnder(s.cells, s.rank, c, p);
    ShowsKind(s, c, ks[i].value);
  }

  /** A member has changed within itself. */
  lemma ChildChanged(s: State, t: State, p: Ptr, ks: seq<T.Node>, f: Fixed, i: nat, v: T.Value)
    requires Open(s, p, ks, f) && i < |ks| && i < |s.kids[p]| && Within(s, t, s.kids[p][i])
    requires Shows(t.cells, t.kids, s.kids[p][i], v)
    ensures Within(s, t, p) && Open(t, p, ks[i := T.Node(ks[i].id, v)], f) && t.kids[p] == s.kids[p]
  {
    hide Within, Shows, Under, IsForest;
    ChildFacts(s, p, ks, f, i);
    WithinUp(s, t, s.kids[p][i], p);
    MemberChanged(s, t, p, i, ks, f.join, v);
    WithinOpen(s, t, p, ks, ks[i := T.Node(ks[i].id, v)], f);
  }

  /** What the search for an id and the mode make of it: AtNone is the member that `?` keeps. */
  datatype Place = AtNone(n: Ptr) | AtError(error: Error) | AtNode(n: Ptr) | AtEnd

  /** c is the member with this id. */
  ghost predicate IsMember(s: State, p: Ptr, ks: seq<T.Node>, id: string, i: nat, c: Ptr) {
    i < |ks| && p in s.kids && i < |s.kids[p]| && c == s.kids[p][i] && ks[i].id == id
  }

  /** The place says for nodes what the slot says for children. */
  ghost predicate Placed(s: State, p: Ptr, ks: seq<T.Node>, base: seq<T.Node>, id: string, slot: Slot, pl: Place) {
    match slot
    case Skipped =>
      base == ks && pl.AtNone? && T.Find(ks, id).Some? && IsMember(s, p, ks, id, T.Find(ks, id).value, pl.n)
    case Failed(e) => pl == AtError(e) && base == ks
    case Existing(i) => base == ks && pl.AtNode? && IsMember(s, p, ks, id, i, pl.n)
    case Fresh(b) => pl == AtEnd && base == b && T.Find(b, id).None?
  }

  /** Looking for an id: with the overriding mode, what is there goes. */
  method LocateNode(h: Heap, p: Ptr, id: string, mode: Mode, ghost ks: seq<T.Node>, ghost f: Fixed)
    returns (pl: Place, ghost base: seq<T.Node>)
    requires h.Valid() && Open(Now(h), p, ks, f) && !Loses(ks, id, mode, f.held)
    modifies h, h.mem
    ensures h.Valid() && Within(old(Now(h)), Now(h), p) && Open(Now(h), p, base, f)
    ensures Placed(Now(h), p, ks, base, id, Locate(ks, id, mode), pl)
  {
    hide Within, Shows, Under, Rings, Up, AllSiblingIds, Compounds, Allocated;
    ghost var a := Now(h);
    OpenSelf(a, p, ks, f);
    OpenDistinct(a, p, ks, f);
    var found := h.FindChild(p, id, None);
    if found.None? {
      NotFoundIs(a, p, T.Compound(ks, f.join), id);
      if mode.Merge? {
        return AtError(NoEntry), ks;
      }
      return AtEnd, ks;
    }
    ghost var i := FoundIs(a, p, T.Compound(ks, f.join), found.value, id);
    ChildFacts(a, p, ks, f, i);
    if mode.DontOverride? {
      return AtNone(found.value), ks;
    }
    if mode.Override? {
      DeletedGone(ks, i);
      DropMember(h, p, found.value, i, ks, f);
      return AtEnd, T.Delete(ks, i);
    }
    return AtNode(found.value), ks;
  }

  lemma OpenDistinct(s: State, p: Ptr, ks: seq<T.Node>, f: Fixed)
    requires Open(s, p, ks, f)
    ensures T.DistinctIds(ks)
  {
    ShowsDistinct(s.links, s.cells, s.kids, s.rank, p, T.Compound(ks, f.join));
  }

  lemma DeletedGone(ks: seq<T.Node>, i: nat)
    requires T.DistinctIds(ks) && i < |ks|
    ensures T.Find(T.Delete(ks, i), ks[i].id).None?
  {
    var d := T.Delete(ks, i);
    forall j | 0 <= j < |d|
      ensures d[j].id != ks[i].id
    {
      assert d[j] == ks[if j < i then j else j + 1];
    }
  }

  // ----- opening a compound

  /** The index of the member that a slot gives, once it has been opened. */
  ghost function SlotIndex(slot: Slot): nat
    requires slot.Existing? || slot.Fresh?
  {
    match slot
    case Existing(i) => i
    case Fresh(b) => |b|
  }

  /** The children once the slot has been opened with a compound; the f flag is set, or what it was. */
  ghost function Opened(ks: seq<T.Node>, slot: Slot, id: string, joined: bool): seq<T.Node>
    requires slot.Existing? ==> slot.i < |ks|
  {
    Store(ks, slot, id, T.Compound(SlotKids(ks, slot), joined || SlotJoin(ks, slot)))
  }

  /** The compound to go on in: the one that is there, or a new one. */
  method OpenNode(h: Heap, p: Ptr, id: string, pl: Place, joined: bool,
                  ghost ks: seq<T.Node>, ghost base: seq<T.Node>, ghost f: Fixed, ghost slot: Slot)
    returns (n: Option<Ptr>)
    requires h.Valid() && Open(Now(h), p, base, f)
    requires (slot.Existing? || slot.Fresh?) && Placed(Now(h), p, ks, base, id, slot, pl)
    modifies h, h.mem
    ensures h.Valid() && Within(old(Now(h)), Now(h), p)
    ensures n.Some? <==> SlotOpens(ks, slot)
    ensures n.None? ==> Open(Now(h), p, ks, f)
    ensures n.Some? ==>
              var o, i := Opened(ks, slot, id, joined), SlotIndex(slot);
              && Open(Now(h), p, o, f) && IsMember(Now(h), p, o, id, i, n.value)
              && o[i] == T.Node(id, T.Compound(SlotKids(ks, slot), joined || SlotJoin(ks, slot)))
  {
    hide Within, Shows, Under, IsForest;
    ghost var a := Now(h);
    OpenSelf(a, p, base, f);
    match pl {
      case AtNode(c) =>
        ghost var i := slot.i;
        ChildFacts(a, p, ks, f, i);
        if h.cells[c].data.Scalar? {
          return None;
        }
        if joined {
          JoinNode(h, p, c, ks, f, i);
        } else {
          assert Opened(ks, slot, id, joined) == ks;
        }
        return Some(c);
      case AtEnd =>
        ghost var v := T.Compound([], joined);
        var c := AppendNode(h, p, id, Members(joined), base, f, v);
        assert Opened(ks, slot, id, joined) == base + [T.Node(id, v)];
        ChildFacts(Now(h), p, base + [T.Node(id, v)], f, |base|);
        OpenLength(a, p, base, f);
        return Some(c);
    }
  }

  lemma OpenLength(s: State, p: Ptr, ks: seq<T.Node>, f: Fixed)
    requires Open(s, p, ks, f)
    ensures |s.kids[p]| == |ks|
  {
    ShowsMembersOf(s, p, ks, f);
  }

  lemma ShowsMembersOf(s: State, p: Ptr, ks: seq<T.Node>, f: Fixed)
    requires Shows(s.cells, s.kids, p, T.Compound(ks, f.join))
    ensures p in s.kids && ShowsAll(s.cells, s.kids, s.kids[p], ks)
  {
    var v := T.Compound(ks, f.join);
    assert v.kids == ks && ShowsAll(s.cells, s.kids, s.kids[p], v.kids);
  }

  method JoinNode(h: Heap, p: Ptr, c: Ptr, ghost ks: seq<T.Node>, ghost f: Fixed, ghost i: nat)
    requires h.Valid() && Open(Now(h), p, ks, f) && i < |ks| && i < |h.kids[p]| && c == h.kids[p][i]
    requires ks[i].value.Compound?
    modifies h
    ensures h.Valid() && Within(old(Now(h)), Now(h), p) && h.kids == old(h.kids)
    ensures Open(Now(h), p, ks[i := T.Node(ks[i].id, T.Compound(ks[i].value.kids, true))], f)
  {
    hide Within, Shows, Under, IsForest;
    ghost var a := Now(h);
    ChildFacts(a, p, ks, f, i);
    h.SetData(c, Members(true));
    assert DataSet(a, Now(h), c, Members(true));
    SetWithin(a, Now(h), c, Members(true));
    SetShows(a, Now(h), c, Members(true), ks[i].value);
    ChildChanged(a, Now(h), p, ks, f, i, T.Compound(ks[i].value.kids, true));
  }

  // ----- the parser

  /** How a parse ends. */
  function EndOf<R>(fate: Fate, want: Res<R>): End {
    if fate.Unset? then UnsetRead else if want.Ok? then Whole else Refused(want.error)
  }

  /**
   A parse below p: the tree is the one that the text leaves, and the end and the text left are those of the
   function.
   */
  ghost predicate Parsed<R>(s: State, t: State, p: Ptr, f: Fixed, left: Left, want: Res<R>, e: End, rest: string) {
    && Within(s, t, p) && Open(t, p, left.kids, f)
    && e == EndOf(left.fate, want) && (!e.UnsetRead? ==> rest == want.rest)
  }

  /** Nothing has been done to the tree. */
  lemma ParsedNothing<R>(s: State, p: Ptr, f: Fixed, left: Left, want: Res<R>, e: End, rest: string)
    requires Open(s, p, left.kids, f) && e == EndOf(left.fate, want) && (!e.UnsetRead? ==> rest == want.rest)
    ensures Parsed(s, s, p, f, left, want, e, rest)
  {
    OpenSelf(s, p, left.kids, f);
  }

  lemma ParsedAfter<R>(s: State, t: State, u: State, p: Ptr, f: Fixed, left: Left, want: Res<R>, e: End, rest: string)
    requires Within(s, t, p) && Parsed(t, u, p, f, left, want, e, rest)
    ensures Parsed(s, u, p, f, left, want, e, rest)
  {
    WithinTwice(s, t, u, p);
  }

  /** The child of an opened slot, stored again. */
  lemma StoredAgain(ks: seq<T.Node>, slot: Slot, id: string, joined: bool, v: T.Value)
    requires (slot.Existing? || slot.Fresh?) && (slot.Existing? ==> slot.i < |ks|)
    ensures var o, i := Opened(ks, slot, id, joined), SlotIndex(slot);
            && i < |o| && o[i].id == id && o[i := T.Node(id, v)] == Store(ks, slot, id, v)
            && T.Delete(Store(ks, slot, id, v), i) == Unopened(ks, slot)
  {
  }

  /** A member of an opened slot, and the paths below it. */
  lemma OpenedChild(s: State, p: Ptr, ks: seq<T.Node>, f: Fixed, i: nat, id: string, c: Ptr)
    requires Open(s, p, ks, f) && IsMember(s, p, ks, id, i, c) && ks[i].value.Compound?
    ensures Open(s, c, ks[i].value.kids, Fixed(ks[i].value.join, T.PathsIn(f.held, id)))
  {
    hide Busy, IsForest, Under, Shows;
    ChildFacts(s, p, ks, f, i);
    MemberPaths(s, p, c, id);
  }

  /** One definition: the loop along its path is a call for each id here. */
  method ParseDef(h: Heap, ld: Loader, input: Input, p: Ptr, ghost ks: seq<T.Node>, ghost f: Fixed) returns (e: End)
    requires h.Valid() && input.Valid() && Open(Now(h), p, ks, f)
    requires LeftDef(ld, ks, input.Text(), f.held).fate != Taken
    modifies h, h.mem, input
    ensures h.Valid() && input.Valid()
    ensures Parsed(old(Now(h)), Now(h), p, f, LeftDef(ld, ks, old(input.Text()), f.held),
                   ld.ParseDef(ks, old(input.Text()), false), e, input.Text())
    decreases |input.Text()|, 1
  {
    ghost var t := input.Text();
    hide Loader.Head, Nonwhite, Loader.Define, Loader.Descend, LeftDescend, LeftBody, Open, Parsed, Flatten;
    var head := ReadHead(ld, input);
    if head.Fail? {
      e := Refused(head.error);
      ParsedNothing(Now(h), p, f, LeftDef(ld, ks, t, f.held), ld.ParseDef(ks, t, false), e, input.Text());
      return;
    }
    var (mode, id) := head.value;
    var g := GetNonwhite(input);
    if g == Got('.') {
      e := Descend(h, ld, input, p, id, mode, ks, f);
    } else {
      e := Define(h, ld, input, p, id, mode, g, ks, f);
    }
  }

  /** What the dot comes to, for the children and for the result. */
  lemma DescendCases(ld: Loader, ks: seq<T.Node>, id: string, mode: Mode, t: string, held: Paths)
    ensures var slot, left, want := Locate(ks, id, mode), LeftDescend(ld, ks, id, mode, t, held),
                                    ld.Descend(ks, id, mode, t, false);
            if Loses(ks, id, mode, held) then left.fate.Taken?
            else if slot.Failed? then left == Left(ks, Sound) && want == Err(slot.error, t)
            else if slot.Skipped? then
              && (left.fate.Taken? <==> OverDef(ld, t).Unclosed? && [id] in held)
              && (!left.fate.Taken? ==> left == Passed(ks, id, OverDef(ld, t)))
              && want == ld.ParseDef(ks, t, true)
            else if !SlotOpens(ks, slot) then left == Left(ks, Sound) && want == Err(Invalid, t)
            else
              var sub := LeftDef(ld, SlotKids(ks, slot), t, T.PathsIn(held, id));
              var r := ld.ParseDef(SlotKids(ks, slot), t, false);
              left == Left(Store(ks, slot, id, T.Compound(sub.kids, true)), sub.fate) && SameOutcome(want, r)
  {
    hide Locate, Loader.ParseDef, LeftDef, Store, SlotOpens, SlotKids, OverDef;
  }

  /** The same but for the value. */
  predicate SameOutcome<R, S>(a: Res<R>, b: Res<S>) {
    a.Ok? == b.Ok? && a.rest == b.rest && (a.Err? ==> a.error == b.error)
  }

  /** The dot: the rest of the definition is one inside the member with this id. */
  method Descend(h: Heap, ld: Loader, input: Input, p: Ptr, id: string, mode: Mode,
                 ghost ks: seq<T.Node>, ghost f: Fixed) returns (e: End)
    requires h.Valid() && input.Valid() && Open(Now(h), p, ks, f)
    requires LeftDescend(ld, ks, id, mode, input.Text(), f.held).fate != Taken
    modifies h, h.mem, input
    ensures h.Valid() && input.Valid()
    ensures Parsed(old(Now(h)), Now(h), p, f, LeftDescend(ld, ks, id, mode, old(input.Text()), f.held),
                   ld.Descend(ks, id, mode, old(input.Text()), false), e, input.Text())
    decreases |input.Text()|, 3
  {
    hide Loader.ParseDef, Loader.Descend, LeftDef, LeftDescend, Locate, Open, Within, Store, SlotKids, SlotJoin,
         SlotOpens, Flatten, OverDef, IsForest, T.PathsIn, Loses, Passed, Opened;
    ghost var a, t, slot := Now(h), input.Text(), Locate(ks, id, mode);
    DescendCases(ld, ks, id, mode, t, f.held);
    var pl, base := LocateNode(h, p, id, mode, ks, f);
    ghost var b := Now(h);
    match pl {
      case AtError(error) =>
        e := Refused(error);
      case AtNone(c) =>
        e := PassDef(h, ld, input, p, id, c, ks, f);
        WithinTwice(a, b, Now(h), p);
      case _ =>
        e := Enter(h, ld, input, p, id, pl, ks, base, f, slot);
        WithinTwice(a, b, Now(h), p);
    }
  }

  /** The member that is there, or a new compound, takes the rest of the definition. */
  method Enter(h: Heap, ld: Loader, input: Input, p: Ptr, id: string, pl: Place,
               ghost ks: seq<T.Node>, ghost base: seq<T.Node>, ghost f: Fixed, ghost slot: Slot) returns (e: End)
    requires h.Valid() && input.Valid() && Open(Now(h), p, base, f)
    requires (slot.Existing? || slot.Fresh?) && Placed(Now(h), p, ks, base, id, slot, pl)
    requires SlotOpens(ks, slot) ==> LeftDef(ld, SlotKids(ks, slot), input.Text(), T.PathsIn(f.held, id)).fate != Taken
    modifies h, h.mem, input
    ensures h.Valid() && input.Valid()
    ensures var t, sub := old(input.Text()), LeftDef(ld, SlotKids(ks, slot), old(input.Text()), T.PathsIn(f.held, id));
            Parsed(old(Now(h)), Now(h), p, f,
                   if SlotOpens(ks, slot) then Left(Store(ks, slot, id, T.Compound(sub.kids, true)), sub.fate)
                   else Left(ks, Sound),
                   if SlotOpens(ks, slot) then ld.ParseDef(SlotKids(ks, slot), t, false) else Err(Invalid, t),
                   e, input.Text())
    decreases |input.Text()|, 2
  {
    hide Loader.ParseDef, LeftDef, Open, Within, Store, SlotKids, SlotJoin, SlotOpens, Flatten, IsForest, T.PathsIn,
         Opened;
    ghost var b, t := Now(h), input.Text();
    var n := OpenNode(h, p, id, pl, true, ks, base, f, slot);
    if n.None? {
      return Refused(Invalid);
    }
    ghost var c, sub, i, o := Now(h), SlotKids(ks, slot), SlotIndex(slot), Opened(ks, slot, id, true);
    ghost var inner := Fixed(true, T.PathsIn(f.held, id));
    OpenedChild(c, p, o, f, i, id, n.value);
    e := ParseDef(h, ld, input, n.value, sub, inner);
    ghost var v := T.Compound(LeftDef(ld, sub, t, inner.held).kids, true);
    ChildParsed(c, Now(h), p, o, f, i, v, inner);
    WithinTwice(b, c, Now(h), p);
    StoredAgain(ks, slot, id, true, v);
  }

  lemma ChildParsed(s: State, t: State, p: Ptr, ks: seq<T.Node>, f: Fixed, i: nat, v: T.Value, g: Fixed)
    requires Open(s, p, ks, f) && i < |ks| && i < |s.kids[p]| && Within(s, t, s.kids[p][i])
    requires v.Compound? && Open(t, s.kids[p][i], v.kids, g) && v.join == g.join
    ensures Within(s, t, p) && Open(t, p, ks[i := T.Node(ks[i].id, v)], f) && t.kids[p] == s.kids[p]
  {
    ChildChanged(s, t, p, ks, f, i, v);
  }

  /**
   The rest of a definition behind `?id.` where the id is there: n is the member c all the time, and where the block of
   the definition does not close that member is deleted.
   */
  method PassDef(h: Heap, ld: Loader, input: Input, p: Ptr, id: string, c: Ptr, ghost ks: seq<T.Node>, ghost f: Fixed)
    returns (e: End)
    requires h.Valid() && input.Valid() && Open(Now(h), p, ks, f)
    requires T.Find(ks, id).Some? && IsMember(Now(h), p, ks, id, T.Find(ks, id).value, c)
    requires OverDef(ld, input.Text()).Unclosed? ==> [id] !in f.held
    modifies h, h.mem, input
    ensures h.Valid() && input.Valid()
    ensures Parsed(old(Now(h)), Now(h), p, f,
                   Passed(ks, id, OverDef(ld, old(input.Text()))), ld.ParseDef(ks, old(input.Text()), true), e,
                   input.Text())
  {
    hide Loader.ParseDef, OverDef, Open, Within, Flatten, IsForest;
    ghost var a, t, i := Now(h), input.Text(), T.Find(ks, id).value;
    DefSkips(ld, ks, t);
    UnclosedIs(ld, t);
    OpenSelf(a, p, ks, f);
    e := SkipDef(ld, input);
    if e.LeftOpen? {
      DropMember(h, p, c, i, ks, f);
      return Refused(UnexpectedChar);
    }
  }

  /** What is left of a definition that is read over while n is the child with this id. */
  function Passed(ks: seq<T.Node>, id: string, over: Over): Left {
    Left(if over.Unclosed? then DeleteId(ks, id) else ks, if over.Wild? then Unset else Sound)
  }

  /** The optional '=' in front of the value. */
  method Define(h: Heap, ld: Loader, input: Input, p: Ptr, id: string, mode: Mode, g: Got,
                ghost ks: seq<T.Node>, ghost f: Fixed) returns (e: End)
    requires h.Valid() && input.Valid() && !input.unget && (g.GotEof? ==> input.Text() == [])
    requires Open(Now(h), p, ks, f)
    requires LeftDefine(ld, ks, id, mode, NextOf(g, input.Text()), f.held).fate != Taken
    modifies h, h.mem, input
    ensures h.Valid() && input.Valid()
    ensures var n := NextOf(g, old(input.Text()));
            Parsed(old(Now(h)), Now(h), p, f, LeftDefine(ld, ks, id, mode, n, f.held),
                   ld.Define(ks, id, mode, n, false), e, input.Text())
    decreases |Back(NextOf(g, input.Text()))|, 2
  {
    ghost var n := NextOf(g, input.Text());
    hide Loader.Body, LeftBody, Open, Parsed, Nonwhite, Flatten;
    var c := g;
    if c == Got('=') {
      c := GetNonwhite(input);
      if !c.Got? {
        e := Refused(if c.GotEof? then UnexpectedEof else IncludeDirective);
        ParsedNothing(Now(h), p, f, LeftDefine(ld, ks, id, mode, n, f.held), ld.Define(ks, id, mode, n, false), e,
                      input.Text());
        return;
      }
    }
    e := Body(h, ld, input, p, id, mode, c, ks, f);
  }

  /** The value itself: a block in braces, a list in brackets, or a scalar. */
  method Body(h: Heap, ld: Loader, input: Input, p: Ptr, id: string, mode: Mode, g: Got,
              ghost ks: seq<T.Node>, ghost f: Fixed) returns (e: End)
    requires h.Valid() && input.Valid() && !input.unget && (g.GotEof? ==> input.Text() == [])
    requires Open(Now(h), p, ks, f)
    requires LeftBody(ld, ks, id, mode, NextOf(g, input.Text()), f.held).fate != Taken
    modifies h, h.mem, input
    ensures h.Valid() && input.Valid()
    ensures var n := NextOf(g, old(input.Text()));
            Parsed(old(Now(h)), Now(h), p, f, LeftBody(ld, ks, id, mode, n, f.held),
                   ld.Body(ks, id, mode, n, false), e, input.Text())
    decreases |Back(NextOf(g, input.Text()))|, 1
  {
    ghost var a, n := Now(h), NextOf(g, input.Text());
    hide Loader.Body, LeftBody, ValueRes, ValueLeft, OverBody, Locate, Open, Within, Flatten, Parsed, IsForest, Loses;
    ghost var slot := Locate(ks, id, mode);
    ghost var left, want := LeftBody(ld, ks, id, mode, n, f.held), ld.Body(ks, id, mode, n, false);
    BodyCases(ld, ks, id, mode, n);
    LeftBodyCases(ld, ks, id, mode, n, f.held);
    var pl, base := LocateNode(h, p, id, mode, ks, f);
    ghost var b := Now(h);
    match pl {
      case AtError(error) =>
        e := Refused(error);
        ParsedNothing(b, p, f, left, want, e, input.Text());
      case AtNone(_) =>
        e := PassBody(ld, input, g, id, mode, ks);
        ParsedNothing(b, p, f, left, want, e, input.Text());
      case _ =>
        e := Value(h, ld, input, p, id, pl, g, ks, base, f, slot);
    }
    ParsedAfter(a, b, Now(h), p, f, left, want, e, input.Text());
  }

  /**
   The value behind `?id` where the id is there: n is NULL, so that nothing is deleted where its block does not
   close.
   */
  method PassBody(ld: Loader, input: Input, g: Got, id: string, mode: Mode, ghost ks: seq<T.Node>) returns (e: End)
    requires input.Valid() && !input.unget && (g.GotEof? ==> input.Text() == [])
    modifies input
    ensures input.Valid()
    ensures var n := NextOf(g, old(input.Text()));
            var want := ld.Body(ks, id, mode, n, true);
            && e == EndOf(if OverBody(ld, n).Wild? then Unset else Sound, want)
            && (!e.UnsetRead? ==> input.Text() == want.rest)
  {
    hide OverBody, Loader.Body, Flatten;
    ghost var n := NextOf(g, input.Text());
    BodySkips(ld, ks, id, mode, n);
    UnclosedBodyIs(ld, id, mode, n);
    e := SkipBody(ld, input, g, id, mode);
    if e.LeftOpen? {
      return Refused(UnexpectedChar);
    }
  }

  lemma BodyCases(ld: Loader, ks: seq<T.Node>, id: string, mode: Mode, n: Next)
    ensures var slot := Locate(ks, id, mode);
            ld.Body(ks, id, mode, n, false) ==
              if slot.Failed? then Err(slot.error, Past(n))
              else if slot.Skipped? then ld.Body(ks, id, mode, n, true)
              else ValueRes(ld, ks, id, slot, n)
  {
    hide Locate, Loader.Block, Loader.ScalarDef;
  }

  lemma LeftBodyCases(ld: Loader, ks: seq<T.Node>, id: string, mode: Mode, n: Next, held: Paths)
    ensures var slot, left := Locate(ks, id, mode), LeftBody(ld, ks, id, mode, n, held);
            if Loses(ks, id, mode, held) then left.fate.Taken?
            else if slot.Failed? then left == Left(ks, Sound)
            else if slot.Skipped? then left == Left(ks, if OverBody(ld, n).Wild? then Unset else Sound)
            else left == ValueLeft(ld, ks, id, slot, n, held)
  {
    hide Locate, LeftBlock, LeftScalar;
  }

  /** A value for the member that is there, or for a new one. */
  method Value(h: Heap, ld: Loader, input: Input, p: Ptr, id: string, pl: Place, g: Got,
               ghost ks: seq<T.Node>, ghost base: seq<T.Node>, ghost f: Fixed, ghost slot: Slot) returns (e: End)
    requires h.Valid() && input.Valid() && !input.unget && (g.GotEof? ==> input.Text() == [])
    requires Open(Now(h), p, base, f)
    requires (slot.Existing? || slot.Fresh?) && Placed(Now(h), p, ks, base, id, slot, pl)
    requires ValueLeft(ld, ks, id, slot, NextOf(g, input.Text()), f.held).fate != Taken
    modifies h, h.mem, input
    ensures h.Valid() && input.Valid()
    ensures var n := NextOf(g, old(input.Text()));
            Parsed(old(Now(h)), Now(h), p, f, ValueLeft(ld, ks, id, slot, n, f.held), ValueRes(ld, ks, id, slot, n), e,
                   input.Text())
    decreases |Back(NextOf(g, input.Text()))|, 0
  {
    hide Loader.Block, Loader.ScalarDef, LeftBlock, LeftScalar, Open, Within, Flatten, SlotOpens, Parsed, IsForest;
    if g == Got('{') || g == Got('[') {
      e := Block(h, ld, input, p, id, pl, g.c, ks, base, f, slot);
    } else {
      input.UngetChar(g);
      e := ScalarDef(h, ld, input, p, id, pl, ks, base, f, slot);
    }
  }

  ghost function ValueLeft(ld: Loader, ks: seq<T.Node>, id: string, slot: Slot, n: Next, held: Paths): Left
    requires slot.Existing? ==> slot.i < |ks|
  {
    if !Opens(n) then LeftScalar(ld, ks, id, slot, Back(n))
    else if SlotOpens(ks, slot) then LeftBlock(ld, ks, id, slot, n.c, n.rest, held)
    else Left(ks, Sound)
  }

  function ValueRes(ld: Loader, ks: seq<T.Node>, id: string, slot: Slot, n: Next): Res<seq<T.Node>>
    requires slot.Existing? ==> slot.i < |ks|
  {
    if !Opens(n) then ld.ScalarDef(ks, id, slot, Back(n))
    else if SlotOpens(ks, slot) then ld.Block(ks, id, slot, n.c, n.rest)
    else Err(Invalid, n.rest)
  }

  /** What a block comes to, for the children and for the result. */
  lemma BlockCases(ld: Loader, ks: seq<T.Node>, id: string, slot: Slot, open: char, t: string, held: Paths)
    requires (slot.Existing? || slot.Fresh?) && (slot.Existing? ==> slot.i < |ks|)
    ensures var left, want := LeftBlock(ld, ks, id, slot, open, t, held), ld.Block(ks, id, slot, open, t);
            var inner, r := LeftInside(ld, SlotKids(ks, slot), open, t, T.PathsIn(held, id)),
                            BlockRest(ld, SlotKids(ks, slot), open, t);
            var all, n := Store(ks, slot, id, T.Compound(inner.kids, SlotJoin(ks, slot))), Nonwhite(r.rest);
            if !inner.fate.Sound? then left == Left(all, inner.fate)
            else if !Parser.At(n, Closing(open)) then
              && (if [id] in held then left.fate.Taken? else left == Left(Unopened(ks, slot), Sound))
              && want == Err(UnexpectedChar, Past(n))
            else
              && left == Left(all, Sound) && want.Ok? == r.Ok? && want.rest == SkipSep(n.rest)
              && (r.Err? ==> want.error == r.error)
  {
    hide Loader.ParseDefs, Loader.ParseArrayDefs, LeftInside, Nonwhite, SkipSep, Store, Unopened, SlotKids, SlotJoin,
         T.PathsIn;
  }

  /** What follows an opening brace or bracket, into the compound that is there or a new one. */
  method Block(h: Heap, ld: Loader, input: Input, p: Ptr, id: string, pl: Place, open: char,
               ghost ks: seq<T.Node>, ghost base: seq<T.Node>, ghost f: Fixed, ghost slot: Slot) returns (e: End)
    requires h.Valid() && input.Valid() && Open(Now(h), p, base, f) && (open == '{' || open == '[')
    requires (slot.Existing? || slot.Fresh?) && Placed(Now(h), p, ks, base, id, slot, pl)
    requires SlotOpens(ks, slot) ==> LeftBlock(ld, ks, id, slot, open, input.Text(), f.held).fate != Taken
    modifies h, h.mem, input
    ensures h.Valid() && input.Valid()
    ensures var t := old(input.Text());
            Parsed(old(Now(h)), Now(h), p, f,
                   if SlotOpens(ks, slot) then LeftBlock(ld, ks, id, slot, open, t, f.held) else Left(ks, Sound),
                   if SlotOpens(ks, slot) then ld.Block(ks, id, slot, open, t) else Err(Invalid, t), e, input.Text())
    decreases |input.Text()|, 5
  {
    hide Loader.Block, LeftBlock, BlockRest, LeftInside, Nonwhite, Open, Within, Store, SlotKids, SlotJoin, SlotOpens,
         Unopened, Flatten, SkipSep, IsForest, T.PathsIn;
    ghost var a, t := Now(h), input.Text();
    BlockCases(ld, ks, id, slot, open, t, f.held);
    var n;
    e, n := Fill(h, ld, input, p, id, pl, open, ks, base, f, slot);
    if n.None? || e.UnsetRead? {
      return;
    }
    ghost var d := Now(h);
    var g := GetNonwhite(input);
    if g == Got(Closing(open)) {
      SkipSeparator(input);
      return;
    }
    ghost var v := T.Compound(LeftInside(ld, SlotKids(ks, slot), open, t, T.PathsIn(f.held, id)).kids,
                              SlotJoin(ks, slot));
    DropMember(h, p, n.value, SlotIndex(slot), Store(ks, slot, id, v), f);
    StoredAgain(ks, slot, id, false, v);
    WithinTwice(a, d, Now(h), p);
    return Refused(UnexpectedChar);
  }

  /** The compound is opened and filled. */
  method Fill(h: Heap, ld: Loader, input: Input, p: Ptr, id: string, pl: Place, open: char,
              ghost ks: seq<T.Node>, ghost base: seq<T.Node>, ghost f: Fixed, ghost slot: Slot)
    returns (e: End, n: Option<Ptr>)
    requires h.Valid() && input.Valid() && Open(Now(h), p, base, f) && (open == '{' || open == '[')
    requires (slot.Existing? || slot.Fresh?) && Placed(Now(h), p, ks, base, id, slot, pl)
    requires SlotOpens(ks, slot) ==>
               LeftInside(ld, SlotKids(ks, slot), open, input.Text(), T.PathsIn(f.held, id)).fate != Taken
    modifies h, h.mem, input
    ensures h.Valid() && input.Valid() && Within(old(Now(h)), Now(h), p) && (n.Some? <==> SlotOpens(ks, slot))
    ensures n.None? ==> e == Refused(Invalid) && Open(Now(h), p, ks, f) && input.Text() == old(input.Text())
    ensures n.Some? ==>
              var sub, t := SlotKids(ks, slot), old(input.Text());
              var inner, r := LeftInside(ld, sub, open, t, T.PathsIn(f.held, id)), BlockRest(ld, sub, open, t);
              var all := Store(ks, slot, id, T.Compound(inner.kids, SlotJoin(ks, slot)));
              && Open(Now(h), p, all, f) && IsMember(Now(h), p, all, id, SlotIndex(slot), n.value)
              && e == EndOf(inner.fate, r) && (!e.UnsetRead? ==> input.Text() == r.rest)
    decreases |input.Text()|, 4
  {
    hide BlockRest, LeftInside, Open, Within, Store, SlotKids, SlotJoin, SlotOpens, Flatten, IsForest, T.PathsIn,
         Opened;
    ghost var a, t := Now(h), input.Text();
    n := OpenNode(h, p, id, pl, false, ks, base, f, slot);
    if n.None? {
      e := Refused(Invalid);
      return;
    }
    ghost var c, sub, i, o := Now(h), SlotKids(ks, slot), SlotIndex(slot), Opened(ks, slot, id, false);
    ghost var inner := Fixed(SlotJoin(ks, slot), T.PathsIn(f.held, id));
    OpenedChild(c, p, o, f, i, id, n.value);
    e := ParseInside(h, ld, input, n.value, open, sub, inner);
    ghost var v := T.Compound(LeftInside(ld, sub, open, t, inner.held).kids, inner.join);
    ChildParsed(c, Now(h), p, o, f, i, v, inner);
    WithinTwice(a, c, Now(h), p);
    StoredAgain(ks, slot, id, false, v);
  }

  method ParseInside(h: Heap, ld: Loader, input: Input, n: Ptr, open: char, ghost sub: seq<T.Node>, ghost f: Fixed)
    returns (e: End)
    requires h.Valid() && input.Valid() && Open(Now(h), n, sub, f) && (open == '{' || open == '[')
    requires LeftInside(ld, sub, open, input.Text(), f.held).fate != Taken
    modifies h, h.mem, input
    ensures h.Valid() && input.Valid()
    ensures Parsed(old(Now(h)), Now(h), n, f, LeftInside(ld, sub, open, old(input.Text()), f.held),
                   BlockRest(ld, sub, open, old(input.Text())), e, input.Text())
    decreases |input.Text()|, 3
  {
    hide Loader.ParseDefs, Loader.ParseArrayDefs, LeftDefs, LeftItems, Parsed, Open, Flatten;
    if open == '{' {
      e := ParseDefs(h, ld, input, n, sub, f);
    } else {
      e := ParseArrayDefs(h, ld, input, n, sub, f);
    }
  }

  /** A scalar: a new node, or a new value of the node that is there. */
  method ScalarDef(h: Heap, ld: Loader, input: Input, p: Ptr, id: string, pl: Place,
                   ghost ks: seq<T.Node>, ghost base: seq<T.Node>, ghost f: Fixed, ghost slot: Slot) returns (e: End)
    requires h.Valid() && input.Valid() && Open(Now(h), p, base, f)
    requires (slot.Existing? || slot.Fresh?) && Placed(Now(h), p, ks, base, id, slot, pl)
    modifies h, h.mem, input
    ensures h.Valid() && input.Valid()
    ensures Parsed(old(Now(h)), Now(h), p, f, LeftScalar(ld, ks, id, slot, old(input.Text())),
                   ld.ScalarDef(ks, id, slot, old(input.Text())), e, input.Text())
  {
    hide GetString, Open, Within, Loader.Scalar, Assign, SkipSep, Flatten, Shows;
    ghost var a, t := Now(h), input.Text();
    OpenSelf(a, p, base, f);
    var s := ReadToken(input, false);
    if s.Fail? {
      return Refused(s.error);
    }
    var v := ld.Scalar(s.value);
    ScalarPlain(ld, s.value);
    match pl {
      case AtNode(c) =>
        ghost var i := slot.i;
        ChildFacts(a, p, ks, f, i);
        if h.cells[c].data.Members? {
          NoCompound(ks[i].value, v);
          return Refused(Invalid);
        }
        var w := Assign(Some(h.cells[c].data.value), v);
        if w.None? {
          return Refused(Invalid);
        }
        AssignPlain(h.cells[c].data.value, v);
        SetScalar(h, p, c, w.value, ks, f, i);
      case AtEnd =>
        AssignNew(v);
        var n := AppendNode(h, p, id, Scalar(v), base, f, v);
    }
    SkipSeparator(input);
    return Whole;
  }

  lemma ScalarPlain(ld: Loader, tok: Token)
    ensures !ld.Scalar(tok).Compound?
  {
  }

  lemma NoCompound(o: T.Value, v: T.Value)
    requires o.Compound?
    ensures Assign(Some(o), v).None?
  {
  }

  lemma AssignPlain(o: T.Value, v: T.Value)
    requires !v.Compound?
    ensures Assign(Some(o), v).Some? ==> !Assign(Some(o), v).value.Compound?
  {
  }

  lemma AssignNew(v: T.Value)
    ensures Assign(None, v) == Some(v)
  {
  }

  method SetScalar(h: Heap, p: Ptr, c: Ptr, v: T.Value, ghost ks: seq<T.Node>, ghost f: Fixed, ghost i: nat)
    requires h.Valid() && Open(Now(h), p, ks, f) && i < |ks| && i < |h.kids[p]| && c == h.kids[p][i]
    requires !ks[i].value.Compound? && !v.Compound?
    modifies h
    ensures h.Valid() && Within(old(Now(h)), Now(h), p)
    ensures Open(Now(h), p, ks[i := T.Node(ks[i].id, v)], f)
  {
    hide Within, Shows, Under, IsForest;
    ghost var a := Now(h);
    ChildFacts(a, p, ks, f, i);
    h.SetData(c, Scalar(v));
    assert DataSet(a, Now(h), c, Scalar(v));
    SetWithin(a, Now(h), c, Scalar(v));
    SetShows(a, Now(h), c, Scalar(v), ks[i].value);
    ChildChanged(a, Now(h), p, ks, f, i, v);
  }

  /** One round of the loop over definitions. */
  lemma DefsRound(ld: Loader, ks: seq<T.Node>, t: string, held: Paths)
    ensures var n, left, want := Nonwhite(t), LeftDefs(ld, ks, t, held), ld.ParseDefs(ks, t, false);
            if n.Eof? then left == Left(ks, Sound) && want == Ok(ks, [])
            else if n.Include? then left == Left(ks, Sound) && want == Err(IncludeDirective, n.rest)
            else if n.c == '}' then left == Left(ks, Sound) && want == Ok(ks, Back(n))
            else
              var d, r := LeftDef(ld, ks, Back(n), held), ld.ParseDef(ks, Back(n), false);
              if d.fate.Sound? && r.Ok? then
                left == LeftDefs(ld, d.kids, r.rest, held) && want == ld.ParseDefs(d.kids, r.rest, false)
              else left == d && (!d.fate.Taken? ==> r.Err? && want == Err(r.error, r.rest))
  {
    hide Loader.ParseDef, LeftDef, Nonwhite;
    if Nonwhite(t).Char? {
      DefAgrees(ld, ks, Back(Nonwhite(t)), held);
    }
  }

  method ParseDefs(h: Heap, ld: Loader, input: Input, p: Ptr, ghost ks: seq<T.Node>, ghost f: Fixed) returns (e: End)
    requires h.Valid() && input.Valid() && Open(Now(h), p, ks, f)
    requires LeftDefs(ld, ks, input.Text(), f.held).fate != Taken
    modifies h, h.mem, input
    ensures h.Valid() && input.Valid()
    ensures Parsed(old(Now(h)), Now(h), p, f, LeftDefs(ld, ks, old(input.Text()), f.held),
                   ld.ParseDefs(ks, old(input.Text()), false), e, input.Text())
    decreases |input.Text()|, 2
  {
    hide Loader.ParseDef, LeftDef, Loader.ParseDefs, LeftDefs, Nonwhite, Open, Within, Flatten, IsForest;
    ghost var a, t0, cur := Now(h), input.Text(), ks;
    OpenSelf(a, p, ks, f);
    while true
      invariant h.Valid() && input.Valid() && |input.Text()| <= |t0|
      invariant Within(a, Now(h), p) && Open(Now(h), p, cur, f)
      invariant ld.ParseDefs(ks, t0, false) == ld.ParseDefs(cur, input.Text(), false)
      invariant LeftDefs(ld, ks, t0, f.held) == LeftDefs(ld, cur, input.Text(), f.held)
      decreases |input.Text()|
    {
      DefsRound(ld, cur, input.Text(), f.held);
      var g := GetNonwhite(input);
      if g.GotEof? {
        return Whole;
      } else if g.GotInclude? {
        return Refused(IncludeDirective);
      }
      input.UngetChar(g);
      if g.c == '}' {
        return Whole;
      }
      ghost var b, t := Now(h), input.Text();
      e := ParseDef(h, ld, input, p, cur, f);
      WithinTwice(a, b, Now(h), p);
      if !e.Whole? {
        return;
      }
      cur := LeftDef(ld, cur, t, f.held).kids;
    }
  }

  /** One round of the loop over items. */
  lemma ItemsRound(ld: Loader, ks: seq<T.Node>, t: string, idx: nat, held: Paths)
    ensures var n, left, want := Nonwhite(t), LeftItems(ld, ks, t, idx, held), ld.ParseArrayDefs(ks, t, idx, false);
            if !n.Char? then left == Left(ks, Sound) && want == Err(NextError(n), Past(n))
            else if n.c == ']' then left == Left(ks, Sound) && want == Ok(ks, Back(n))
            else
              var d, r := LeftItem(ld, ks, Back(n), idx, held), ld.ParseArrayDef(ks, Back(n), idx, false);
              if d.fate.Sound? && r.Ok? then
                && left == LeftItems(ld, d.kids, r.rest, r.value.1 + 1, held)
                && want == ld.ParseArrayDefs(d.kids, r.rest, r.value.1 + 1, false)
              else left == d && (!d.fate.Taken? ==> r.Err? && want == Err(r.error, r.rest))
  {
    hide Loader.ParseArrayDef, LeftItem, Nonwhite;
    if Nonwhite(t).Char? {
      ItemAgrees(ld, ks, Back(Nonwhite(t)), idx, held);
    }
  }

  method ParseArrayDefs(h: Heap, ld: Loader, input: Input, p: Ptr, ghost ks: seq<T.Node>, ghost f: Fixed)
    returns (e: End)
    requires h.Valid() && input.Valid() && Open(Now(h), p, ks, f)
    requires LeftItems(ld, ks, input.Text(), 0, f.held).fate != Taken
    modifies h, h.mem, input
    ensures h.Valid() && input.Valid()
    ensures Parsed(old(Now(h)), Now(h), p, f, LeftItems(ld, ks, old(input.Text()), 0, f.held),
                   ld.ParseArrayDefs(ks, old(input.Text()), 0, false), e, input.Text())
    decreases |input.Text()|, 2
  {
    hide Loader.ParseArrayDef, LeftItem, Loader.ParseArrayDefs, LeftItems, Nonwhite, Open, Within, Flatten, IsForest;
    ghost var a, t0, cur := Now(h), input.Text(), ks;
    OpenSelf(a, p, ks, f);
    var idx := 0;
    while true
      invariant h.Valid() && input.Valid() && |input.Text()| <= |t0|
      invariant Within(a, Now(h), p) && Open(Now(h), p, cur, f)
      invariant ld.ParseArrayDefs(ks, t0, 0, false) == ld.ParseArrayDefs(cur, input.Text(), idx, false)
      invariant LeftItems(ld, ks, t0, 0, f.held) == LeftItems(ld, cur, input.Text(), idx, f.held)
      decreases |input.Text()|
    {
      ItemsRound(ld, cur, input.Text(), idx, f.held);
      var g := GetNonwhite(input);
      if !g.Got? {
        return Refused(if g.GotEof? then UnexpectedEof else IncludeDirective);
      }
      input.UngetChar(g);
      if g.c == ']' {
        return Whole;
      }
      ghost var b, left := Now(h), LeftItem(ld, cur, input.Text(), idx, f.held);
      e, idx := ParseArrayDef(h, ld, input, p, idx, cur, f);
      WithinTwice(a, b, Now(h), p);
      if !e.Whole? {
        return;
      }
      cur, idx := left.kids, idx + 1;
    }
  }

  /** The search for the next index; with the overriding default the item that has it goes. */
  method NextItem(h: Heap, ld: Loader, p: Ptr, idx: nat, ghost ks: seq<T.Node>, ghost f: Fixed)
    returns (j: nat, ghost base: seq<T.Node>)
    requires h.Valid() && Open(Now(h), p, ks, f)
    requires ld.override ==> !Loses(ks, Decimal(idx), Override, f.held)
    modifies h, h.mem
    ensures h.Valid() && Within(old(Now(h)), Now(h), p) && Open(Now(h), p, base, f)
    ensures ld.ItemSlot(ks, idx) == (base, j) && T.Find(base, Decimal(j)).None?
  {
    hide Within, Shows, Under, Decimal, Open, NextFree, IsForest;
    ghost var a := Now(h);
    OpenSelf(a, p, ks, f);
    OpenDistinct(a, p, ks, f);
    ghost var left := Ids(ks);
    j := idx;
    while true
      invariant h.Valid() && Now(h) == a && (ld.override ==> j == idx)
      invariant NextFree(left, j) == NextFree(Ids(ks), idx) && left <= Ids(ks)
      invariant forall s | s in Ids(ks) - left :: IndexBelow(s, j)
      decreases left
    {
      var found;
      ghost var i;
      found, i := FindItem(h, p, Decimal(j), ks, f);
      if found.None? {
        FreeStops(left, j, ks);
        return j, ks;
      }
      if ld.override {
        DeletedGone(ks, i);
        DropMember(h, p, found.value, i, ks, f);
        return j, T.Delete(ks, i);
      }
      FreeGoesOn(left, j, ks, i);
      left := left - {Decimal(j)};
      j := j + 1;
    }
  }

  method FindItem(h: Heap, p: Ptr, id: string, ghost ks: seq<T.Node>, ghost f: Fixed)
    returns (found: Option<Ptr>, ghost i: nat)
    requires h.Valid() && Open(Now(h), p, ks, f)
    ensures found.None? ==> T.Find(ks, id).None?
    ensures found.Some? ==> T.Find(ks, id) == Some(i) && IsMember(Now(h), p, ks, id, i, found.value)
  {
    ghost var a := Now(h);
    i := 0;
    found := h.FindChild(p, id, None);
    if found.None? {
      NotFoundIs(a, p, T.Compound(ks, f.join), id);
    } else {
      i := FoundIs(a, p, T.Compound(ks, f.join), found.value, id);
    }
  }

  lemma FreeStops(left: set<string>, j: nat, ks: seq<T.Node>)
    requires T.Find(ks, Decimal(j)).None? && left <= Ids(ks)
    ensures NextFree(left, j) == j
  {
    hide Decimal;
    assert Decimal(j) !in Ids(ks);
  }

  lemma FreeGoesOn(left: set<string>, j: nat, ks: seq<T.Node>, i: nat)
    requires i < |ks| && ks[i].id == Decimal(j) && left <= Ids(ks)
    requires forall s | s in Ids(ks) - left :: IndexBelow(s, j)
    ensures Decimal(j) in left && NextFree(left, j) == NextFree(left - {Decimal(j)}, j + 1)
    ensures forall s | s in Ids(ks) - (left - {Decimal(j)}) :: IndexBelow(s, j + 1)
  {
    hide Decimal;
    assert ks[i] in ks && Decimal(j) in Ids(ks);
    if Decimal(j) !in left {
      assert IndexBelow(Decimal(j), j);
      var k: nat :| k < j && Decimal(j) == Decimal(k);
      DecimalInjective(j, k);
    }
    forall s | s in Ids(ks) - (left - {Decimal(j)})
      ensures IndexBelow(s, j + 1)
    {
      if s != Decimal(j) {
        assert s in Ids(ks) - left && IndexBelow(s, j);
      }
    }
  }

  /** One item under the next index. */
  method ParseArrayDef(h: Heap, ld: Loader, input: Input, p: Ptr, idx: nat, ghost ks: seq<T.Node>, ghost f: Fixed)
    returns (e: End, j: nat)
    requires h.Valid() && input.Valid() && Open(Now(h), p, ks, f)
    requires LeftItem(ld, ks, input.Text(), idx, f.held).fate != Taken
    modifies h, h.mem, input
    ensures h.Valid() && input.Valid()
    ensures var want := ld.ParseArrayDef(ks, old(input.Text()), idx, false);
            && Parsed(old(Now(h)), Now(h), p, f, LeftItem(ld, ks, old(input.Text()), idx, f.held),
                      want, e, input.Text())
            && (want.Ok? ==> j == want.value.1)
    decreases |input.Text()|, 1
  {
    hide Loader.ParseDefs, Loader.ParseArrayDefs, Loader.ItemSlot, Loader.Scalar, Nonwhite, GetString, Decimal, Open,
         Within, Flatten, LeftInside, Loses;
    ghost var a, t, base := Now(h), input.Text(), ks;
    j, base := NextItem(h, ld, p, idx, ks, f);
    ghost var b := Now(h);
    var g := GetNonwhite(input);
    if !g.Got? {
      return Refused(if g.GotEof? then UnexpectedEof else IncludeDirective), j;
    }
    if g.c == '{' || g.c == '[' {
      e := BlockItem(h, ld, input, p, j, g.c, base, f);
      WithinTwice(a, b, Now(h), p);
      return;
    }
    input.UngetChar(g);
    var s := ReadToken(input, false);
    if s.Fail? {
      return Refused(s.error), j;
    }
    var v := ld.Scalar(s.value);
    ScalarPlain(ld, s.value);
    var n := AppendNode(h, p, Decimal(j), Scalar(v), base, f, v);
    WithinTwice(a, b, Now(h), p);
    return Whole, j;
  }

  /** What is left of an item in braces or brackets. */
  ghost function BlockItemLeft(ld: Loader, base: seq<T.Node>, j: nat, open: char, t: string, held: Paths): Left {
    var inner, r := LeftInside(ld, [], open, t, T.PathsIn(held, Decimal(j))), BlockRest(ld, [], open, t);
    var e := Nonwhite(r.rest);
    if inner.fate.Sound? && r.Ok? && e.Char? && e.c != Closing(open) then Left(base, Sound)
    else Left(base + [T.Node(Decimal(j), T.Compound(inner.kids, false))], inner.fate)
  }

  /** What such an item is read as. */
  function BlockItemRes(ld: Loader, open: char, t: string): Res<seq<T.Node>> {
    var r := BlockRest(ld, [], open, t);
    var e := Nonwhite(r.rest);
    if r.Err? then r
    else if !e.Char? then Err(NextError(e), Past(e))
    else if e.c != Closing(open) then Err(UnexpectedChar, e.rest)
    else Ok(r.value, e.rest)
  }

  lemma BlockItemCases(ld: Loader, base: seq<T.Node>, j: nat, open: char, t: string, held: Paths)
    ensures var left, want := BlockItemLeft(ld, base, j, open, t, held), BlockItemRes(ld, open, t);
            var inner, r := LeftInside(ld, [], open, t, T.PathsIn(held, Decimal(j))), BlockRest(ld, [], open, t);
            var all, n := base + [T.Node(Decimal(j), T.Compound(inner.kids, false))], Nonwhite(r.rest);
            if !inner.fate.Sound? || r.Err? then left == Left(all, inner.fate) && (inner.fate.Sound? ==> want == r)
            else if !n.Char? then left == Left(all, Sound) && want == Err(NextError(n), Past(n))
            else if n.c != Closing(open) then left == Left(base, Sound) && want == Err(UnexpectedChar, n.rest)
            else left == Left(all, Sound) && want == Ok(r.value, n.rest)
  {
    hide BlockRest, LeftInside, Nonwhite, Decimal, T.PathsIn;
  }

  method BlockItem(h: Heap, ld: Loader, input: Input, p: Ptr, j: nat, open: char, ghost base: seq<T.Node>,
                   ghost f: Fixed)
    returns (e: End)
    requires h.Valid() && input.Valid() && Open(Now(h), p, base, f) && T.Find(base, Decimal(j)).None?
    requires open == '{' || open == '['
    requires BlockItemLeft(ld, base, j, open, input.Text(), f.held).fate != Taken
    modifies h, h.mem, input
    ensures h.Valid() && input.Valid()
    ensures Parsed(old(Now(h)), Now(h), p, f, BlockItemLeft(ld, base, j, open, old(input.Text()), f.held),
                   BlockItemRes(ld, open, old(input.Text())), e, input.Text())
    decreases |input.Text()|, 4
  {
    hide BlockRest, BlockItemLeft, BlockItemRes, LeftInside, Nonwhite, Decimal, Open, Within, Flatten, IsForest,
         T.PathsIn, T.Find;
    ghost var a, t, id := Now(h), input.Text(), Decimal(j);
    BlockItemCases(ld, base, j, open, t, f.held);
    InsideAgrees(ld, [], open, t, T.PathsIn(f.held, id));
    var n := NewItem(h, p, Decimal(j), base, f);
    ghost var c, all, i := Now(h), base + [T.Node(id, T.Compound([], false))], |base|;
    ghost var inner := Fixed(false, T.PathsIn(f.held, id));
    e := ParseInside(h, ld, input, n, open, [], inner);
    ghost var d, v := Now(h), T.Compound(LeftInside(ld, [], open, t, inner.held).kids, false);
    ChildParsed(c, d, p, all, f, i, v, inner);
    WithinTwice(a, c, d, p);
    assert all[i := T.Node(id, v)] == base + [T.Node(id, v)];
    if !e.Whole? {
      return;
    }
    var g := GetNonwhite(input);
    if !g.Got? {
      return Refused(if g.GotEof? then UnexpectedEof else IncludeDirective);
    }
    if g.c != Closing(open) {
      DropMember(h, p, n, i, base + [T.Node(id, v)], f);
      WithinTwice(a, d, Now(h), p);
      assert T.Delete(base + [T.Node(id, v)], i) == base;
      return Refused(UnexpectedChar);
    }
  }

  /** A new compound for an item. */
  method NewItem(h: Heap, p: Ptr, id: string, ghost base: seq<T.Node>, ghost f: Fixed) returns (n: Ptr)
    requires h.Valid() && Open(Now(h), p, base, f) && T.Find(base, id).None?
    modifies h, h.mem
    ensures h.Valid() && Within(old(Now(h)), Now(h), p) && [id] !in f.held
    ensures var all := base + [T.Node(id, T.Compound([], false))];
            && Open(Now(h), p, all, f) && IsMember(Now(h), p, all, id, |base|, n)
            && Open(Now(h), n, [], Fixed(false, T.PathsIn(f.held, id)))
  {
    hide Open, Within, IsForest, T.PathsIn, T.Find, Shows;
    ghost var a, all := Now(h), base + [T.Node(id, T.Compound([], false))];
    OpenLength(a, p, base, f);
    n := AppendNode(h, p, id, Members(false), base, f, T.Compound([], false));
    OpenedChild(Now(h), p, all, f, |base|, id, n);
    NewIsFree(a, Now(h), p, n, all, f, |base|);
  }

  /** Nobody holds a node that is new. */
  lemma NewIsFree(s: State, t: State, p: Ptr, n: Ptr, ks: seq<T.Node>, f: Fixed, i: nat)
    requires Within(s, t, p) && Open(t, p, ks, f) && i < |ks| && i < |t.kids[p]| && n == t.kids[p][i] && n !in s.cells
    ensures [ks[i].id] !in f.held
  {
    hide Busy, IsForest, Under, Shows;
    ChildFacts(t, p, ks, f, i);
    NotBusy(t, p, n, ks[i].id);
  }

  /**
   snd_config_load: the tree below top is what the text leaves of it, and nothing else has changed, also where the load
   fails; and a pointer without a value is deleted exactly where the text comes to that.
   */
  method Load(h: Heap, ld: Loader, top: Ptr, text: string, ghost ks: seq<T.Node>, ghost f: Fixed) returns (e: End)
    requires h.Valid() && Open(Now(h), top, ks, f)
    requires LeftDefs(ld, ks, text, f.held).fate != Taken
    modifies h, h.mem
    ensures h.Valid() && Within(old(Now(h)), Now(h), top)
    ensures Open(Now(h), top, LeftDefs(ld, ks, text, f.held).kids, f)
    ensures e == UnsetRead <==> LeftDefs(ld, ks, text, f.held).fate == Unset
    ensures e == Whole <==> ld.Load(ks, text).Some?
    ensures e == Whole ==> Open(Now(h), top, ld.Load(ks, text).value, f)
  {
    DefsAgree(ld, ks, text, f.held);
    hide Loader.ParseDefs, LeftDefs, Open, Within;
    var input := new Input(text);
    e := ParseDefs(h, ld, input, top, ks, f);
    if e.Whole? {
      var g := input.GetChar();
      e := if g.GotEof? then Whole else Refused(UnexpectedChar);
    }
  }
}
