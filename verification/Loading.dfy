/** What loading a text does to the tree it is loaded into, for any tree and any text. */
module Loading {
  import opened Numbers
  import opened Lexer
  import opened Tree
  import opened Parser

  // ----- sibling ids stay distinct

  lemma DeleteKeepsDistinct(kids: seq<Node>, i: nat)
    requires DistinctIds(kids) && i < |kids|
    ensures DistinctIds(Delete(kids, i))
    ensures Find(Delete(kids, i), kids[i].id).None?
    ensures forall k | k in Delete(kids, i) :: k in kids
  {
    var d := Delete(kids, i);
    forall a, b | 0 <= a < b < |d|
      ensures d[a].id != d[b].id
    {
      assert d[a] == kids[if a < i then a else a + 1];
      assert d[b] == kids[if b < i then b else b + 1];
    }
    forall a | 0 <= a < |d|
      ensures d[a].id != kids[i].id
    {
      assert d[a] == kids[if a < i then a else a + 1];
    }
  }

  lemma LocateFresh(kids: seq<Node>, id: string, mode: Mode)
    requires DistinctIds(kids)
    ensures var s := Locate(kids, id, mode);
            && (s.Fresh? ==> DistinctIds(s.base) && Find(s.base, id).None? && forall k | k in s.base :: k in kids)
            && (s.Existing? ==> kids[s.i].id == id)
  {
    if Find(kids, id).Some? {
      DeleteKeepsDistinct(kids, Find(kids, id).value);
    }
  }

  lemma StoreWellFormed(kids: seq<Node>, id: string, mode: Mode, v: Value)
    requires WellFormedKids(kids) && WellFormed(v)
    ensures WellFormedKids(Store(kids, Locate(kids, id, mode), id, v))
  {
    LocateFresh(kids, id, mode);
    var s := Locate(kids, id, mode);
    var r := Store(kids, s, id, v);
    forall k | k in r
      ensures WellFormed(k.value)
    {
      assert k in kids || k == Node(id, v);
    }
  }

  lemma SlotKidsWellFormed(kids: seq<Node>, slot: Slot)
    requires WellFormedKids(kids) && (slot.Existing? ==> slot.i < |kids|)
    ensures WellFormedKids(SlotKids(kids, slot))
  {
    if slot.Existing? {
      assert WellFormed(kids[slot.i].value);
    }
  }

  lemma {:induction false} NextFreeIsFree(ids: set<string>, all: set<string>, idx: nat)
    requires ids <= all && forall s | s in all - ids :: IndexBelow(s, idx)
    ensures Decimal(NextFree(ids, idx)) !in all
    decreases ids
  {
    if Decimal(idx) in ids {
      forall s | s in all - (ids - {Decimal(idx)})
        ensures IndexBelow(s, idx + 1)
      {
        if s != Decimal(idx) {
          assert s in all - ids && IndexBelow(s, idx);
        }
      }
      NextFreeIsFree(ids - {Decimal(idx)}, all, idx + 1);
    } else if Decimal(idx) in all {
      assert IndexBelow(Decimal(idx), idx);
      var k: nat :| k < idx && Decimal(idx) == Decimal(k);
      DecimalInjective(idx, k);
    }
  }

  /** And every index passed over is one. */
  lemma {:induction false} NextFreeIsFirst(ids: set<string>, idx: nat, k: nat)
    requires idx <= k < NextFree(ids, idx)
    ensures Decimal(k) in ids
    decreases ids
  {
    if k != idx {
      NextFreeIsFirst(ids - {Decimal(idx)}, idx + 1, k);
    }
  }

  lemma ItemSlotFree(ld: Loader, kids: seq<Node>, idx: nat)
    requires WellFormedKids(kids)
    ensures var (base, j) := ld.ItemSlot(kids, idx);
            WellFormedKids(base) && Find(base, Decimal(j)).None?
  {
    if ld.override {
      if Find(kids, Decimal(idx)).Some? {
        DeleteKeepsDistinct(kids, Find(kids, Decimal(idx)).value);
      }
    } else {
      NextFreeIsFree(Ids(kids), Ids(kids), idx);
    }
  }

  lemma AppendWellFormed(base: seq<Node>, id: string, v: Value)
    requires WellFormedKids(base) && Find(base, id).None? && WellFormed(v)
    ensures WellFormedKids(base + [Node(id, v)])
  {
    var r := base + [Node(id, v)];
    forall k | k in r
      ensures WellFormed(k.value)
    {
      assert k in base || k == Node(id, v);
    }
  }

  lemma {:induction false} ParseDefWellFormed(ld: Loader, kids: seq<Node>, t: string, skip: bool)
    requires WellFormedKids(kids)
    ensures var r := ld.ParseDef(kids, t, skip); r.Ok? ==> WellFormedKids(r.value)
    decreases |t|, 1
  {
    hide Nonwhite, WellFormedKids, Locate, Store;
    var h := ld.Head(t);
    if h.Ok? {
      var (mode, id) := h.value;
      var n := Nonwhite(h.rest);
      if At(n, '.') {
        DescendWellFormed(ld, kids, id, mode, n.rest, skip);
      } else if At(n, '=') {
        if Nonwhite(n.rest).Char? {
          BodyWellFormed(ld, kids, id, mode, Nonwhite(n.rest), skip);
        }
      } else {
        BodyWellFormed(ld, kids, id, mode, n, skip);
      }
    }
  }

  lemma DescendWellFormed(ld: Loader, kids: seq<Node>, id: string, mode: Mode, t: string, skip: bool)
    requires WellFormedKids(kids)
    ensures var r := ld.Descend(kids, id, mode, t, skip); r.Ok? ==> WellFormedKids(r.value)
    decreases |t|, 2
  {
    hide Locate;
    if !skip {
      var slot := Locate(kids, id, mode);
      SlotKidsWellFormed(kids, slot);
      ParseDefWellFormed(ld, SlotKids(kids, slot), t, false);
      var r := ld.ParseDef(SlotKids(kids, slot), t, false);
      if r.Ok? {
        StoreWellFormed(kids, id, mode, Compound(r.value, true));
      }
    }
  }

  lemma BodyWellFormed(ld: Loader, kids: seq<Node>, id: string, mode: Mode, n: Next, skip: bool)
    requires WellFormedKids(kids)
    ensures var r := ld.Body(kids, id, mode, n, skip); r.Ok? ==> WellFormedKids(r.value)
    decreases |Back(n)|, 1
  {
    if !skip {
      var slot := Locate(kids, id, mode);
      if !slot.Failed? {
        if Opens(n) {
          BlockWellFormed(ld, kids, id, mode, n.c, n.rest);
        } else {
          ScalarWellFormed(ld, kids, id, mode, Back(n));
        }
      }
    }
  }

  lemma ScalarWellFormed(ld: Loader, kids: seq<Node>, id: string, mode: Mode, t: string)
    requires WellFormedKids(kids) && !Locate(kids, id, mode).Failed?
    ensures var r := ld.ScalarDef(kids, id, Locate(kids, id, mode), t); r.Ok? ==> WellFormedKids(r.value)
  {
    var slot := Locate(kids, id, mode);
    var g := GetString(t, false);
    if g.Ok? && !slot.Skipped? {
      var v := Assign(SlotValue(kids, slot), ld.Scalar(g.value));
      if v.Some? {
        assert !v.value.Compound?;
        StoreWellFormed(kids, id, mode, v.value);
      }
    }
  }

  lemma BlockWellFormed(ld: Loader, kids: seq<Node>, id: string, mode: Mode, open: char, t: string)
    requires WellFormedKids(kids) && !Locate(kids, id, mode).Failed?
    ensures var r := ld.Block(kids, id, Locate(kids, id, mode), open, t); r.Ok? ==> WellFormedKids(r.value)
    decreases |t|, 3
  {
    hide Locate, Nonwhite;
    var slot := Locate(kids, id, mode);
    var sub := SlotKids(kids, slot);
    SlotKidsWellFormed(kids, slot);
    ParseDefsWellFormed(ld, sub, t, slot.Skipped?);
    ItemsWellFormed(ld, sub, t, 0, slot.Skipped?);
    var inner := if open == '{' then ld.ParseDefs(sub, t, slot.Skipped?) else ld.ParseArrayDefs(sub, t, 0, slot.Skipped?);
    if inner.Ok? {
      StoreWellFormed(kids, id, mode, Compound(inner.value, SlotJoin(kids, slot)));
    }
  }

  /** Loading into a tree whose siblings have distinct ids yields another such tree. */
  lemma {:induction false} ParseDefsWellFormed(ld: Loader, kids: seq<Node>, t: string, skip: bool)
    requires WellFormedKids(kids)
    ensures var r := ld.ParseDefs(kids, t, skip); r.Ok? ==> WellFormedKids(r.value)
    decreases |t|, 2
  {
    hide Nonwhite, WellFormedKids;
    var n := Nonwhite(t);
    if n.Char? && n.c != '}' {
      ParseDefWellFormed(ld, kids, Back(n), skip);
      var d := ld.ParseDef(kids, Back(n), skip);
      if d.Ok? {
        ParseDefsWellFormed(ld, d.value, d.rest, skip);
      }
    }
  }

  lemma {:induction false} ItemsWellFormed(ld: Loader, kids: seq<Node>, t: string, idx: nat, skip: bool)
    requires WellFormedKids(kids)
    ensures var r := ld.ParseArrayDefs(kids, t, idx, skip); r.Ok? ==> WellFormedKids(r.value)
    decreases |t|, 2
  {
    hide Nonwhite, WellFormedKids;
    var n := Nonwhite(t);
    if n.Char? && n.c != ']' {
      ItemWellFormed(ld, kids, Back(n), idx, skip);
      var d := ld.ParseArrayDef(kids, Back(n), idx, skip);
      if d.Ok? {
        ItemsWellFormed(ld, d.value.0, d.rest, d.value.1 + 1, skip);
      }
    }
  }

  lemma ItemWellFormed(ld: Loader, kids: seq<Node>, t: string, idx: nat, skip: bool)
    requires WellFormedKids(kids)
    ensures var r := ld.ParseArrayDef(kids, t, idx, skip); r.Ok? ==> WellFormedKids(r.value.0)
    decreases |t|, 1
  {
    hide Nonwhite, Decimal, Loader.ItemSlot;
    if !skip {
      var (base, j) := ld.ItemSlot(kids, idx);
      ItemSlotFree(ld, kids, idx);
      var n := Nonwhite(t);
      if Opens(n) {
        ParseDefsWellFormed(ld, [], n.rest, false);
        ItemsWellFormed(ld, [], n.rest, 0, false);
        var inner := if n.c == '{' then ld.ParseDefs([], n.rest, false) else ld.ParseArrayDefs([], n.rest, 0, false);
        if inner.Ok? {
          AppendWellFormed(base, Decimal(j), Compound(inner.value, false));
        }
      } else if n.Char? {
        var g := GetString(Back(n), false);
        if g.Ok? {
          AppendWellFormed(base, Decimal(j), ld.Scalar(g.value));
        }
      }
    }
  }

  // ----- how far a definition extends does not depend on the tree

  /** Read over without effect, the text is accepted and leaves the given rest. */
  ghost predicate SkipsTo<T>(r: Res<T>, rest: string) {
    r.Ok? && r.rest == rest
  }

  lemma HeadExtent(ld: Loader, other: Loader, t: string)
    requires ld.Head(t).Ok?
    ensures other.Head(t).Ok? && other.Head(t).rest == ld.Head(t).rest && other.Head(t).value.1 == ld.Head(t).value.1
  {
  }

  lemma {:induction false} DefExtent(ld: Loader, other: Loader, kids: seq<Node>, t: string, skip: bool)
    requires ld.ParseDef(kids, t, skip).Ok?
    ensures SkipsTo(other.ParseDef([], t, true), ld.ParseDef(kids, t, skip).rest)
    decreases |t|, 1
  {
    hide Nonwhite, GetString, Locate, Loader.Block, Loader.ScalarDef;
    HeadExtent(ld, other, t);
    var (mode, id) := ld.Head(t).value;
    var n := Nonwhite(ld.Head(t).rest);
    if At(n, '.') {
      if skip || Locate(kids, id, mode).Skipped? {
        DefExtent(ld, other, kids, n.rest, true);
      } else {
        DefExtent(ld, other, SlotKids(kids, Locate(kids, id, mode)), n.rest, false);
      }
    } else {
      var v := AfterEquals(n);
      DefineIsBody(ld, kids, id, mode, n, skip);
      BodyExtent(ld, other, kids, id, mode, v, skip);
      var m := other.Head(t).value.0;
      DefineIsBody(other, [], id, m, n, true);
      assert SkipsTo(other.Body([], id, m, v, true), ld.Body(kids, id, mode, v, skip).rest);
    }
  }

  /** What the value of a definition starts with, behind an optional '='. */
  function AfterEquals(n: Next): Next {
    if At(n, '=') then Nonwhite(n.rest) else n
  }

  lemma DefineIsBody(ld: Loader, kids: seq<Node>, id: string, mode: Mode, n: Next, skip: bool)
    ensures ld.Define(kids, id, mode, n, skip).Ok? ==> (At(n, '=') ==> AfterEquals(n).Char?)
    ensures (At(n, '=') ==> AfterEquals(n).Char?) ==>
              ld.Define(kids, id, mode, n, skip) == ld.Body(kids, id, mode, AfterEquals(n), skip)
  {
    hide Nonwhite, Loader.Body;
  }

  lemma BodyExtent(ld: Loader, other: Loader, kids: seq<Node>, id: string, mode: Mode, n: Next, skip: bool)
    requires ld.Body(kids, id, mode, n, skip).Ok?
    ensures forall m :: SkipsTo(other.Body([], id, m, n, true), ld.Body(kids, id, mode, n, skip).rest)
    decreases |Back(n)|, 1
  {
    hide Nonwhite, GetString, Locate;
    var slot := if skip then Skipped else Locate(kids, id, mode);
    if Opens(n) {
      BlockExtent(ld, other, kids, id, slot, n.c, n.rest);
    }
  }

  lemma BlockExtent(ld: Loader, other: Loader, kids: seq<Node>, id: string, slot: Slot, open: char, t: string)
    requires slot.Existing? ==> slot.i < |kids|
    requires ld.Block(kids, id, slot, open, t).Ok?
    ensures SkipsTo(other.Block([], id, Skipped, open, t), ld.Block(kids, id, slot, open, t).rest)
    decreases |t|, 3
  {
    hide Nonwhite;
    var sub := SlotKids(kids, slot);
    if open == '{' {
      DefsExtent(ld, other, sub, t, slot.Skipped?);
    } else {
      ItemsExtent(ld, other, sub, t, 0, 0, slot.Skipped?);
    }
  }

  /** Any two successful readings of a text, into any trees and under any default mode, end at the same place. */
  lemma {:induction false} DefsExtent(ld: Loader, other: Loader, kids: seq<Node>, t: string, skip: bool)
    requires ld.ParseDefs(kids, t, skip).Ok?
    ensures SkipsTo(other.ParseDefs([], t, true), ld.ParseDefs(kids, t, skip).rest)
    decreases |t|, 2
  {
    hide Nonwhite, Loader.ParseDef;
    var n := Nonwhite(t);
    if n.Char? && n.c != '}' {
      DefExtent(ld, other, kids, Back(n), skip);
      var d := ld.ParseDef(kids, Back(n), skip);
      DefsExtent(ld, other, d.value, d.rest, skip);
    }
  }

  lemma {:induction false} ItemsExtent(ld: Loader, other: Loader, kids: seq<Node>, t: string, idx: nat, jdx: nat,
                                       skip: bool)
    requires ld.ParseArrayDefs(kids, t, idx, skip).Ok?
    ensures SkipsTo(other.ParseArrayDefs([], t, jdx, true), ld.ParseArrayDefs(kids, t, idx, skip).rest)
    decreases |t|, 2
  {
    hide Nonwhite, Loader.ParseArrayDef;
    var n := Nonwhite(t);
    if n.c != ']' {
      ItemExtent(ld, other, kids, Back(n), idx, jdx, skip);
      var d := ld.ParseArrayDef(kids, Back(n), idx, skip);
      var e := other.ParseArrayDef([], Back(n), jdx, true);
      ItemsExtent(ld, other, d.value.0, d.rest, d.value.1 + 1, e.value.1 + 1, skip);
    }
  }

  lemma ItemExtent(ld: Loader, other: Loader, kids: seq<Node>, t: string, idx: nat, jdx: nat, skip: bool)
    requires ld.ParseArrayDef(kids, t, idx, skip).Ok?
    ensures SkipsTo(other.ParseArrayDef([], t, jdx, true), ld.ParseArrayDef(kids, t, idx, skip).rest)
    decreases |t|, 1
  {
    hide Nonwhite, GetString, Decimal, Loader.ItemSlot;
    var n := Nonwhite(t);
    if Opens(n) {
      if n.c == '{' {
        DefsExtent(ld, other, [], n.rest, skip);
      } else {
        ItemsExtent(ld, other, [], n.rest, 0, 0, skip);
      }
    }
  }

  /** Reading over a definition succeeds in any tree if it does in one. */
  lemma {:induction false} SkipsAnywhere(ld: Loader, kids: seq<Node>, t: string)
    ensures ld.ParseDef(kids, t, true).Ok? == ld.ParseDef([], t, true).Ok?
    ensures ld.ParseDef(kids, t, true).Ok? ==> ld.ParseDef(kids, t, true) == Ok(kids, ld.ParseDef([], t, true).rest)
    decreases |t|
  {
    hide Nonwhite, GetString, Loader.Head, Loader.ParseDefs, Loader.ParseArrayDefs;
    if ld.Head(t).Ok? {
      var n := Nonwhite(ld.Head(t).rest);
      if At(n, '.') {
        SkipsAnywhere(ld, kids, n.rest);
      } else {
        var (mode, id) := ld.Head(t).value;
        SkippedBody(ld, kids, id, mode, AfterEquals(n));
        DefineIsBody(ld, kids, id, mode, n, true);
        DefineIsBody(ld, [], id, mode, n, true);
      }
    }
  }

  lemma SkippedBody(ld: Loader, kids: seq<Node>, id: string, mode: Mode, n: Next)
    ensures ld.Body(kids, id, mode, n, true).Ok? == ld.Body([], id, mode, n, true).Ok?
    ensures ld.Body(kids, id, mode, n, true).rest == ld.Body([], id, mode, n, true).rest
  {
    hide Nonwhite, GetString, Loader.ParseDefs, Loader.ParseArrayDefs;
  }

  // ----- texts whose top-level definitions all have one mode

  /** Every definition of the text, read over one after the other, begins with this mode. */
  predicate AllDefs(ld: Loader, t: string, mode: Mode)
    decreases |t|
  {
    var n := Nonwhite(t);
    n.Char? && n.c != '}' ==>
      && (ld.Head(Back(n)).Ok? ==> ld.Head(Back(n)).value.0 == mode)
      && var d := ld.ParseDef([], Back(n), true);
      (d.Ok? ==> AllDefs(ld, d.rest, mode))
  }

  lemma AllDefsStep(ld: Loader, kids: seq<Node>, t: string, mode: Mode)
    requires AllDefs(ld, t, mode) && Nonwhite(t).Char? && Nonwhite(t).c != '}'
    requires ld.ParseDef(kids, Back(Nonwhite(t)), false).Ok?
    ensures var u := Back(Nonwhite(t));
            && ld.Head(u).Ok? && ld.Head(u).value.0 == mode
            && AllDefs(ld, ld.ParseDef(kids, u, false).rest, mode)
  {
    hide Nonwhite, Loader.Head;
    DefExtent(ld, ld, kids, Back(Nonwhite(t)), false);
  }

  /** A definition with the mode of '?' leaves what is there and can only add a child behind it. */
  lemma QuestionDef(ld: Loader, kids: seq<Node>, t: string)
    requires ld.Head(t).Ok? && ld.Head(t).value.0.DontOverride? && ld.ParseDef(kids, t, false).Ok?
    ensures kids <= ld.ParseDef(kids, t, false).value
  {
    hide Nonwhite, GetString, Assign, Loader.ParseDefs, Loader.ParseArrayDefs, Loader.Scalar, Loader.Head;
    var id := ld.Head(t).value.1;
    var slot := Locate(kids, id, DontOverride);
    assert slot.Skipped? || slot == Fresh(kids);
    assert forall v :: kids <= Store(kids, slot, id, v);
    var n := Nonwhite(ld.Head(t).rest);
    if !At(n, '.') {
      QuestionBody(ld, kids, id, AfterEquals(n));
      DefineIsBody(ld, kids, id, DontOverride, n, false);
    }
  }

  lemma QuestionBody(ld: Loader, kids: seq<Node>, id: string, n: Next)
    ensures var r := ld.Body(kids, id, DontOverride, n, false); r.Ok? ==> kids <= r.value
  {
    hide Nonwhite, GetString, Assign, Loader.ParseDefs, Loader.ParseArrayDefs, Loader.Scalar;
    var slot := Locate(kids, id, DontOverride);
    assert slot.Skipped? || slot == Fresh(kids);
  }

  /** Text whose definitions all begin with '?' never changes, moves or removes a child that was there. */
  lemma {:induction false} QuestionKeepsAll(ld: Loader, kids: seq<Node>, t: string)
    requires AllDefs(ld, t, DontOverride) && ld.ParseDefs(kids, t, false).Ok?
    ensures kids <= ld.ParseDefs(kids, t, false).value
    decreases |t|
  {
    hide Nonwhite, Loader.ParseDef, Loader.Head, AllDefs;
    var n := Nonwhite(t);
    if n.Char? && n.c != '}' {
      var d := ld.ParseDef(kids, Back(n), false);
      AllDefsStep(ld, kids, t, DontOverride);
      QuestionDef(ld, kids, Back(n));
      QuestionKeepsAll(ld, d.value, d.rest);
    }
  }

  // ----- overriding definitions

  /** The children whose ids are not among those given, in order. */
  function Without(kids: seq<Node>, ids: set<string>): seq<Node> {
    if kids == [] then []
    else (if kids[0].id in ids then [] else [kids[0]]) + Without(kids[1..], ids)
  }

  lemma {:induction false} WithoutConcat(a: seq<Node>, b: seq<Node>, ids: set<string>)
    ensures Without(a + b, ids) == Without(a, ids) + Without(b, ids)
  {
    if a == [] {
      assert a + b == b;
    } else {
      assert (a + b)[1..] == a[1..] + b;
      WithoutConcat(a[1..], b, ids);
    }
  }

  lemma {:induction false} WithoutTwice(kids: seq<Node>, a: set<string>, b: set<string>)
    ensures Without(Without(kids, a), b) == Without(kids, a + b)
  {
    if kids != [] {
      WithoutTwice(kids[1..], a, b);
      var h := if kids[0].id in a then [] else [kids[0]];
      WithoutConcat(h, Without(kids[1..], a), b);
    }
  }

  lemma WithoutAbsent(kids: seq<Node>, ids: set<string>)
    requires forall k | k in kids :: k.id !in ids
    ensures Without(kids, ids) == kids
  {
  }

  lemma WithoutAll(kids: seq<Node>, ids: set<string>)
    requires forall k | k in kids :: k.id in ids
    ensures Without(kids, ids) == []
  {
  }

  lemma WithoutIn(kids: seq<Node>, ids: set<string>, k: Node)
    ensures k in Without(kids, ids) <==> k in kids && k.id !in ids
  {
  }

  lemma OthersDiffer(kids: seq<Node>)
    requires DistinctIds(kids) && kids != []
    ensures forall k | k in kids[1..] :: k.id != kids[0].id
  {
    forall k | k in kids[1..]
      ensures k.id != kids[0].id
    {
      var j :| 0 <= j < |kids[1..]| && kids[1..][j] == k;
      assert kids[j + 1] == k;
    }
  }

  lemma DeleteIdHead(kids: seq<Node>, id: string)
    requires kids != []
    ensures DeleteId(kids, id) == if kids[0].id == id then kids[1..] else [kids[0]] + DeleteId(kids[1..], id)
  {
    if kids[0].id == id {
      assert Delete(kids, 0) == kids[1..];
    } else if Find(kids[1..], id).Some? {
      var i := Find(kids[1..], id).value;
      assert Delete(kids, i + 1) == [kids[0]] + Delete(kids[1..], i);
    } else {
      assert kids == [kids[0]] + kids[1..];
    }
  }

  /** Removing the one child with an id. */
  lemma {:induction false} DeleteIdIsWithout(kids: seq<Node>, id: string)
    requires DistinctIds(kids)
    ensures DeleteId(kids, id) == Without(kids, {id})
  {
    if kids != [] {
      DeleteIdHead(kids, id);
      hide DeleteId;
      if kids[0].id == id {
        OthersDiffer(kids);
        WithoutAbsent(kids[1..], {id});
      } else {
        DeleteIdIsWithout(kids[1..], id);
      }
    }
  }

  lemma {:induction false} WithoutDistinct(kids: seq<Node>, ids: set<string>)
    requires DistinctIds(kids)
    ensures DistinctIds(Without(kids, ids))
  {
    if kids != [] {
      WithoutDistinct(kids[1..], ids);
      forall k | k in Without(kids[1..], ids)
        ensures k.id != kids[0].id
      {
        WithoutIn(kids[1..], ids, k);
        var j :| 0 <= j < |kids[1..]| && kids[1..][j] == k;
        assert kids[j + 1] == k;
      }
    }
  }

  /** An overriding definition makes one child, the same for every tree, in place of the child with its id. */
  lemma OverrideDef(ld: Loader, kids: seq<Node>, t: string) returns (x: Node)
    requires ld.Head(t).Ok? && ld.Head(t).value.0.Override?
    ensures ld.ParseDef(kids, t, false).Ok? == ld.ParseDef([], t, false).Ok?
    ensures var r := ld.ParseDef([], t, false);
            r.Ok? ==>
              && r.value == [x] && x.id == ld.Head(t).value.1
              && ld.ParseDef(kids, t, false) == Ok(DeleteId(kids, x.id) + [x], r.rest)
  {
    hide Nonwhite, GetString, Loader.Head, Loader.Body, DeleteId;
    var (_, id) := ld.Head(t).value;
    OverrideLocates(kids, id);
    OverrideLocates([], id);
    DeleteFromNone(id);
    var n := Nonwhite(ld.Head(t).rest);
    x := Node(id, Integer(0));
    if At(n, '.') {
      var r := ld.ParseDef([], n.rest, false);
      if r.Ok? {
        x := Node(id, Compound(r.value, true));
      }
    } else {
      DefineIsBody(ld, kids, id, Override, n, false);
      DefineIsBody(ld, [], id, Override, n, false);
      x := OverrideBody(ld, kids, id, AfterEquals(n));
    }
  }

  lemma DeleteFromNone(id: string)
    ensures DeleteId([], id) == []
  {
  }

  lemma OverrideLocates(kids: seq<Node>, id: string)
    ensures Locate(kids, id, Override) == Fresh(DeleteId(kids, id))
  {
  }

  lemma OverrideBody(ld: Loader, kids: seq<Node>, id: string, n: Next) returns (x: Node)
    ensures ld.Body(kids, id, Override, n, false).Ok? == ld.Body([], id, Override, n, false).Ok?
    ensures var r := ld.Body([], id, Override, n, false);
            r.Ok? ==>
              && r.value == [x] && x.id == id
              && ld.Body(kids, id, Override, n, false) == Ok(DeleteId(kids, id) + [x], r.rest)
  {
    hide Nonwhite, GetString, DeleteId, Loader.ParseDefs, Loader.ParseArrayDefs, Loader.Scalar;
    OverrideLocates(kids, id);
    OverrideLocates([], id);
    DeleteFromNone(id);
    x := Node(id, Integer(0));
    if Opens(n) {
      var inner := if n.c == '{' then ld.ParseDefs([], n.rest, false) else ld.ParseArrayDefs([], n.rest, 0, false);
      if inner.Ok? {
        x := Node(id, Compound(inner.value, false));
      }
    } else {
      var g := GetString(Back(n), false);
      if g.Ok? {
        x := Node(id, ld.Scalar(g.value));
      }
    }
    assert [] + [x] == [x];
  }

  /** One overriding definition keeps `kids without the ids defined so far, then what they were defined as`. */
  lemma OverrideStep(kids: seq<Node>, done: seq<Node>, x: Node)
    requires DistinctIds(kids) && DistinctIds(done)
    ensures var done1 := DeleteId(done, x.id) + [x];
            && DistinctIds(done1)
            && DeleteId(Without(kids, Ids(done)) + done, x.id) + [x] == Without(kids, Ids(done1)) + done1
  {
    hide DeleteId, Ids, Without;
    var id, all := x.id, Without(kids, Ids(done)) + done;
    var done1 := DeleteId(done, id) + [x];
    WithoutDistinct(kids, Ids(done));
    AllDistinct(kids, done);
    DeleteIdIsWithout(all, id);
    DeleteIdIsWithout(done, id);
    WithoutConcat(Without(kids, Ids(done)), done, {id});
    WithoutTwice(kids, Ids(done), {id});
    WithoutDistinct(done, {id});
    IdsAfter(done, x);
    forall k | k in Without(done, {id})
      ensures k.id != id
    {
      WithoutIn(done, {id}, k);
    }
  }

  lemma AllDistinct(kids: seq<Node>, done: seq<Node>)
    requires DistinctIds(kids) && DistinctIds(done)
    ensures DistinctIds(Without(kids, Ids(done)) + done)
  {
    var w := Without(kids, Ids(done));
    WithoutDistinct(kids, Ids(done));
    forall i, j | 0 <= i < |w| && 0 <= j < |done|
      ensures w[i].id != done[j].id
    {
      WithoutIn(kids, Ids(done), w[i]);
      assert done[j].id in Ids(done);
    }
  }

  lemma IdsAfter(done: seq<Node>, x: Node)
    requires DistinctIds(done)
    ensures Ids(DeleteId(done, x.id) + [x]) == Ids(done) + {x.id}
  {
    var d := DeleteId(done, x.id) + [x];
    DeleteIdIsWithout(done, x.id);
    forall s
      ensures s in Ids(d) <==> s in Ids(done) + {x.id}
    {
      if s in Ids(d) {
        var k :| k in d && k.id == s;
        if k != x {
          WithoutIn(done, {x.id}, k);
        }
      }
      if s in Ids(done) && s != x.id {
        var k :| k in done && k.id == s;
        WithoutIn(done, {x.id}, k);
        assert k in d;
      }
      assert x in d;
    }
  }

  lemma {:induction false} OverrideRun(ld: Loader, kids: seq<Node>, done: seq<Node>, t: string)
    requires AllDefs(ld, t, Override) && DistinctIds(kids) && DistinctIds(done)
    ensures var a := ld.ParseDefs(done, t, false);
            var b := ld.ParseDefs(Without(kids, Ids(done)) + done, t, false);
            && a.Ok? == b.Ok?
            && (a.Ok? ==> b == Ok(Without(kids, Ids(a.value)) + a.value, a.rest) && DistinctIds(a.value))
    decreases |t|
  {
    hide Nonwhite, Loader.ParseDef, Loader.Head, DeleteId, Without, Ids;
    var n := Nonwhite(t);
    if n.Char? && n.c != '}' {
      var u, all := Back(n), Without(kids, Ids(done)) + done;
      if ld.Head(u).Ok? {
        assert ld.Head(u).value.0 == Override;
        var x := OverrideDef(ld, done, u);
        var y := OverrideDef(ld, all, u);
        if ld.ParseDef([], u, false).Ok? {
          AllDefsStep(ld, done, t, Override);
          OverrideStep(kids, done, x);
          OverrideRun(ld, kids, DeleteId(done, x.id) + [x], ld.ParseDef(done, u, false).rest);
        }
      } else {
        HeadFails(ld, done, u);
        HeadFails(ld, all, u);
      }
    }
  }

  lemma HeadFails(ld: Loader, kids: seq<Node>, t: string)
    requires ld.Head(t).Err?
    ensures ld.ParseDef(kids, t, false).Err?
  {
  }

  /**
   Overriding text means the same for every tree: the children it does not mention stay as they were, in
   order, and behind them stand the children that the text alone defines.
   */
  lemma OverrideMeaning(ld: Loader, kids: seq<Node>, t: string)
    requires AllDefs(ld, t, Override) && DistinctIds(kids)
    ensures ld.Load(kids, t).Some? == ld.Load([], t).Some?
    ensures ld.Load([], t).Some? ==>
              var defined := ld.Load([], t).value;
              && DistinctIds(defined)
              && ld.Load(kids, t) == Some(Without(kids, Ids(defined)) + defined)
  {
    hide Loader.ParseDefs;
    OverrideRun(ld, kids, [], t);
    assert Ids([]) == {};
    WithoutAbsent(kids, {});
    assert kids + [] == kids;
  }

  // ----- the last definition wins

  /** The child with an id. */
  function Lookup(kids: seq<Node>, id: string): Option<Node> {
    match Find(kids, id)
    case None => None
    case Some(i) => Some(kids[i])
  }

  /** The child that the last top-level definition of an id makes, on its own. */
  function LastDef(ld: Loader, t: string, id: string): Option<Node>
    decreases |t|
  {
    var n := Nonwhite(t);
    if !n.Char? || n.c == '}' then None
    else
      var d := ld.ParseDef([], Back(n), false);
      if !d.Ok? || !ld.Head(Back(n)).Ok? then None
      else
        var later := LastDef(ld, d.rest, id);
        if later.None? && ld.Head(Back(n)).value.1 == id then Lookup(d.value, id) else later
  }

  lemma LookupAfter(kids: seq<Node>, x: Node, id: string)
    requires DistinctIds(kids)
    ensures Lookup(DeleteId(kids, x.id) + [x], id) == if id == x.id then Some(x) else Lookup(kids, id)
    ensures DistinctIds(DeleteId(kids, x.id) + [x])
  {
    hide DeleteId;
    var after := DeleteId(kids, x.id) + [x];
    DeleteIdIsWithout(kids, x.id);
    WithoutDistinct(kids, {x.id});
    forall k | k in Without(kids, {x.id})
      ensures k.id != x.id
    {
      WithoutIn(kids, {x.id}, k);
    }
    if id == x.id {
      assert after[|after| - 1] == x;
      FindUnique(after, |after| - 1);
    } else if Find(kids, id).Some? {
      var k := kids[Find(kids, id).value];
      WithoutIn(kids, {x.id}, k);
      var j :| 0 <= j < |Without(kids, {x.id})| && Without(kids, {x.id})[j] == k;
      assert after[j] == k;
      FindUnique(after, j);
    } else {
      forall j | 0 <= j < |after|
        ensures after[j].id != id
      {
        WithoutIn(kids, {x.id}, after[j]);
      }
    }
  }

  /** In overriding text the last definition of an id wins; an id that is not defined keeps its child. */
  lemma {:induction false} LastDefWins(ld: Loader, kids: seq<Node>, t: string, id: string)
    requires AllDefs(ld, t, Override) && DistinctIds(kids) && ld.ParseDefs(kids, t, false).Ok?
    ensures var after := ld.ParseDefs(kids, t, false).value;
            Lookup(after, id) == if LastDef(ld, t, id).Some? then LastDef(ld, t, id) else Lookup(kids, id)
    decreases |t|
  {
    hide Nonwhite, Loader.ParseDef, Loader.Head, DeleteId, AllDefs, Lookup;
    var n := Nonwhite(t);
    if n.Char? && n.c != '}' {
      var u := Back(n);
      var d := ld.ParseDef(kids, u, false);
      AllDefsStep(ld, kids, t, Override);
      var x := OverrideDef(ld, kids, u);
      LookupAfter(kids, x, id);
      LookupAlone(x, id);
      LastDefWins(ld, d.value, d.rest, id);
    }
  }

  lemma LookupAlone(x: Node, id: string)
    ensures Lookup([x], id) == if id == x.id then Some(x) else None
  {
  }

  /** Loading overriding text a second time changes nothing. */
  lemma OverrideIdempotent(ld: Loader, kids: seq<Node>, t: string)
    requires AllDefs(ld, t, Override) && DistinctIds(kids) && ld.Load(kids, t).Some?
    ensures ld.Load(ld.Load(kids, t).value, t) == ld.Load(kids, t)
  {
    hide Loader.Load, AllDefs;
    OverrideMeaning(ld, kids, t);
    var defined := ld.Load([], t).value;
    var ids := Ids(defined);
    var once := Without(kids, ids) + defined;
    AllDistinct(kids, defined);
    OverrideMeaning(ld, once, t);
    WithoutConcat(Without(kids, ids), defined, ids);
    WithoutTwice(kids, ids, ids);
    WithoutAll(defined, ids);
    assert ids + ids == ids && Without(kids, ids) + [] == Without(kids, ids);
    assert Without(once, ids) == Without(kids, ids);
  }

  /** With the overriding default, text in which no definition starts with a prefix is overriding text. */
  lemma {:induction false} PrefixFreeOverrides(ld: Loader, t: string)
    requires ld.override && PrefixFree(ld, t)
    ensures AllDefs(ld, t, Override)
    decreases |t|
  {
    hide Nonwhite, GetString;
    var n := Nonwhite(t);
    if n.Char? && n.c != '}' {
      NonwhiteBack(t);
      var d := ld.ParseDef([], Back(n), true);
      if d.Ok? {
        PrefixFreeOverrides(ld, d.rest);
      }
    }
  }

  /** No definition of the text starts with a mode prefix. */
  predicate PrefixFree(ld: Loader, t: string)
    decreases |t|
  {
    var n := Nonwhite(t);
    n.Char? && n.c != '}' ==>
      && !IsModeChar(n.c)
      && var d := ld.ParseDef([], Back(n), true);
      (d.Ok? ==> PrefixFree(ld, d.rest))
  }
}
