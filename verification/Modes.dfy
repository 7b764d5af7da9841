/** What the four modes of a definition do to the children that are already there (conf.c:1378-1509). */
module Modes {
  import opened Numbers
  import opened Lexer
  import opened Tree
  import opened Parser
  import opened Loading

  predicate SameKind(a: Value, b: Value) {
    match a
    case Integer(_) => b.Integer?
    case Integer64(_) => b.Integer64?
    case Real(_) => b.Real?
    case Str(_) => b.Str?
    case Compound(_, _) => b.Compound?
  }

  function AnyInteger(v: Value): Option<int> {
    match v
    case Integer(i) => Some(i)
    case Integer64(i) => Some(i)
    case _ => None
  }

  /** A value goes into a scalar of its own type, or of the other integer type, and is not changed by that. */
  lemma AssignMeaning(o: Value, v: Value)
    ensures Assign(Some(o), v).Some? <==>
              (AnyInteger(o).Some? && AnyInteger(v).Some?) || (SameKind(o, v) && !o.Compound?)
    ensures var r := Assign(Some(o), v);
            r.Some? ==> SameKind(o, r.value) && if AnyInteger(v).Some? then AnyInteger(r.value) == AnyInteger(v) else r.value == v
  {
  }

  /** A definition that succeeds stores one value under its id, where its mode says; a value in place keeps its kind. */
  lemma DefStores(ld: Loader, kids: seq<Node>, t: string) returns (v: Value)
    requires ld.ParseDef(kids, t, false).Ok?
    ensures ld.Head(t).Ok?
    ensures var (mode, id) := ld.Head(t).value;
            var slot := Locate(kids, id, mode);
            && !slot.Failed?
            && ld.ParseDef(kids, t, false).value == Store(kids, slot, id, v)
            && (slot.Existing? ==> SameKind(kids[slot.i].value, v))
  {
    hide Nonwhite, Loader.Head, Locate, Loader.Body, Loader.Descend;
    var (mode, id) := ld.Head(t).value;
    var n := Nonwhite(ld.Head(t).rest);
    if At(n, '.') {
      v := DescendStores(ld, kids, id, mode, n.rest);
    } else {
      DefineIsBody(ld, kids, id, mode, n, false);
      v := BodyStores(ld, kids, id, mode, AfterEquals(n));
    }
  }

  lemma DescendStores(ld: Loader, kids: seq<Node>, id: string, mode: Mode, t: string) returns (v: Value)
    requires ld.Descend(kids, id, mode, t, false).Ok?
    ensures var slot := Locate(kids, id, mode);
            && !slot.Failed?
            && ld.Descend(kids, id, mode, t, false).value == Store(kids, slot, id, v)
            && (slot.Existing? ==> SameKind(kids[slot.i].value, v))
  {
    hide Loader.ParseDef, Locate;
    var slot := Locate(kids, id, mode);
    v := Integer(0);
    if !slot.Skipped? {
      v := Compound(ld.ParseDef(SlotKids(kids, slot), t, false).value, true);
    }
  }

  lemma BodyStores(ld: Loader, kids: seq<Node>, id: string, mode: Mode, n: Next) returns (v: Value)
    requires ld.Body(kids, id, mode, n, false).Ok?
    ensures var slot := Locate(kids, id, mode);
            && !slot.Failed?
            && ld.Body(kids, id, mode, n, false).value == Store(kids, slot, id, v)
            && (slot.Existing? ==> SameKind(kids[slot.i].value, v))
  {
    hide Locate, Nonwhite, Loader.Block, Loader.ScalarDef;
    var slot := Locate(kids, id, mode);
    if Opens(n) {
      v := BlockStores(ld, kids, id, slot, n.c, n.rest);
    } else {
      v := ScalarStores(ld, kids, id, slot, Back(n));
    }
  }

  lemma BlockStores(ld: Loader, kids: seq<Node>, id: string, slot: Slot, open: char, t: string) returns (v: Value)
    requires (slot.Existing? ==> slot.i < |kids|) && SlotOpens(kids, slot) && ld.Block(kids, id, slot, open, t).Ok?
    ensures ld.Block(kids, id, slot, open, t).value == Store(kids, slot, id, v) && v.Compound?
  {
    hide Nonwhite, Loader.ParseDefs, Loader.ParseArrayDefs, SkipSep;
    var sub := SlotKids(kids, slot);
    var inner := if open == '{' then ld.ParseDefs(sub, t, slot.Skipped?) else ld.ParseArrayDefs(sub, t, 0, slot.Skipped?);
    v := Compound(inner.value, SlotJoin(kids, slot));
  }

  lemma ScalarStores(ld: Loader, kids: seq<Node>, id: string, slot: Slot, t: string) returns (v: Value)
    requires (slot.Existing? ==> slot.i < |kids|) && !slot.Failed? && ld.ScalarDef(kids, id, slot, t).Ok?
    ensures ld.ScalarDef(kids, id, slot, t).value == Store(kids, slot, id, v)
    ensures slot.Existing? ==> SameKind(kids[slot.i].value, v)
  {
    hide GetString, SkipSep, Loader.Scalar, Assign;
    v := Integer(0);
    if !slot.Skipped? {
      var w := ld.Scalar(GetString(t, false).value);
      v := Assign(SlotValue(kids, slot), w).value;
      if slot.Existing? {
        AssignMeaning(kids[slot.i].value, w);
      }
    }
  }

  // ----- what a text does not mention

  /** The ids of the top-level definitions of a text. */
  function Mentioned(ld: Loader, t: string): set<string>
    decreases |t|
  {
    var n := Nonwhite(t);
    if !n.Char? || n.c == '}' then {}
    else
      match ld.Head(Back(n))
      case Err(_, _) => {}
      case Ok((_, id), _) =>
        var d := ld.ParseDef([], Back(n), true);
        {id} + (if d.Ok? then Mentioned(ld, d.rest) else {})
  }

  lemma StoreTouchesOne(kids: seq<Node>, id: string, mode: Mode, v: Value)
    ensures Without(Store(kids, Locate(kids, id, mode), id, v), {id}) == Without(kids, {id})
  {
    WithoutAll([Node(id, v)], {id});
    hide Without;
    match Locate(kids, id, mode)
    case Existing(i) =>
      ReplaceTouchesOne(kids, i, id, v);
    case Fresh(base) =>
      WithoutConcat(base, [Node(id, v)], {id});
      if base != kids {
        DeleteTouchesOne(kids, Find(kids, id).value, id);
      }
    case _ =>
  }

  lemma ReplaceTouchesOne(kids: seq<Node>, i: nat, id: string, v: Value)
    requires i < |kids| && kids[i].id == id
    ensures Without(kids[i := Node(id, v)], {id}) == Without(kids, {id})
  {
    DeleteTouchesOne(kids, i, id);
    DeleteTouchesOne(kids[i := Node(id, v)], i, id);
    assert Delete(kids[i := Node(id, v)], i) == Delete(kids, i);
  }

  lemma DeleteTouchesOne(kids: seq<Node>, i: nat, id: string)
    requires i < |kids| && kids[i].id == id
    ensures Without(Delete(kids, i), {id}) == Without(kids, {id})
  {
    var a, x, b := kids[..i], [kids[i]], kids[i + 1..];
    WithoutAll(x, {id});
    assert kids == a + (x + b);
    hide Without;
    WithoutMiddle(a, x, b, {id});
  }

  lemma WithoutMiddle(a: seq<Node>, x: seq<Node>, b: seq<Node>, ids: set<string>)
    requires Without(x, ids) == []
    ensures Without(a + (x + b), ids) == Without(a + b, ids)
  {
    hide Without;
    WithoutConcat(a, x + b, ids);
    WithoutConcat(x, b, ids);
    WithoutConcat(a, b, ids);
  }

  lemma {:induction false} StillWithout(a: seq<Node>, b: seq<Node>, some: set<string>, more: set<string>)
    requires Without(a, some) == Without(b, some)
    ensures Without(a, some + more) == Without(b, some + more)
  {
    WithoutTwice(a, some, more);
    WithoutTwice(b, some, more);
  }

  /** Whatever its modes, a text leaves all children it does not mention as they are and in their order. */
  lemma {:induction false} UnmentionedKept(ld: Loader, kids: seq<Node>, t: string)
    requires ld.ParseDefs(kids, t, false).Ok?
    ensures Without(ld.ParseDefs(kids, t, false).value, Mentioned(ld, t)) == Without(kids, Mentioned(ld, t))
    decreases |t|
  {
    hide Nonwhite, Loader.ParseDef, Loader.Head, Without, Store, Locate;
    var n := Nonwhite(t);
    if n.Char? && n.c != '}' {
      var d := ld.ParseDef(kids, Back(n), false);
      DefExtent(ld, ld, kids, Back(n), false);
      var v := DefStores(ld, kids, Back(n));
      var (mode, id) := ld.Head(Back(n)).value;
      StoreTouchesOne(kids, id, mode, v);
      UnmentionedKept(ld, d.value, d.rest);
      var later := Mentioned(ld, d.rest);
      StillWithout(d.value, kids, {id}, later);
      StillWithout(ld.ParseDefs(d.value, d.rest, false).value, d.value, later, {id});
      assert later + {id} == {id} + later;
    }
  }

  // ----- merging definitions

  /** The children of before are still in their places, under their ids and with their kinds. */
  predicate InPlace(before: seq<Node>, after: seq<Node>) {
    && |before| <= |after|
    && forall i :: 0 <= i < |before| ==> after[i].id == before[i].id && SameKind(before[i].value, after[i].value)
  }

  lemma MergeDef(ld: Loader, kids: seq<Node>, t: string)
    requires ld.ParseDef(kids, t, false).Ok? && ld.Head(t).Ok?
    requires (ld.Head(t).value.0.Merge? || ld.Head(t).value.0.MergeCreate?)
    ensures InPlace(kids, ld.ParseDef(kids, t, false).value)
    ensures ld.Head(t).value.0.Merge? ==> |ld.ParseDef(kids, t, false).value| == |kids|
  {
    hide Loader.ParseDef, Loader.Head;
    var v := DefStores(ld, kids, t);
  }

  /** Text that only merges moves nothing, removes nothing and changes no type; with `-` it also adds nothing. */
  lemma {:induction false} MergeKeepsPlaces(ld: Loader, kids: seq<Node>, t: string, mode: Mode)
    requires (mode.Merge? || mode.MergeCreate?) && AllDefs(ld, t, mode) && ld.ParseDefs(kids, t, false).Ok?
    ensures InPlace(kids, ld.ParseDefs(kids, t, false).value)
    ensures mode.Merge? ==> |ld.ParseDefs(kids, t, false).value| == |kids|
    decreases |t|
  {
    hide Nonwhite, Loader.ParseDef, Loader.Head, AllDefs;
    var n := Nonwhite(t);
    if n.Char? && n.c != '}' {
      var d := ld.ParseDef(kids, Back(n), false);
      AllDefsStep(ld, kids, t, mode);
      MergeDef(ld, kids, Back(n));
      MergeKeepsPlaces(ld, d.value, d.rest, mode);
    }
  }

  /** A definition with `-` needs the child to be there. */
  lemma MergeNeedsEntry(ld: Loader, kids: seq<Node>, t: string)
    requires ld.Head(t).Ok? && Find(kids, ld.Head(t).value.1).None? && ld.Head(t).value.0.Merge?
    ensures !ld.ParseDef(kids, t, false).Ok?
  {
    hide Loader.ParseDef, Loader.Head, Find;
    if ld.ParseDef(kids, t, false).Ok? {
      var v := DefStores(ld, kids, t);
    }
  }

  /** What a definition does to a tree without its id is what it does to the empty tree, behind all that is there. */
  ghost predicate Appends(r: Res<seq<Node>>, kids: seq<Node>, alone: Res<seq<Node>>) {
    && r.Ok? == alone.Ok?
    && (r.Ok? ==> r.rest == alone.rest && r.value == kids + alone.value)
  }

  /** In the other modes a definition of a new id appends the same child to every tree. */
  lemma NewEntryAppended(ld: Loader, kids: seq<Node>, t: string)
    requires ld.Head(t).Ok? && Find(kids, ld.Head(t).value.1).None? && !ld.Head(t).value.0.Merge?
    ensures Appends(ld.ParseDef(kids, t, false), kids, ld.ParseDef([], t, false))
  {
    hide Nonwhite, Loader.Head, Loader.Body, Loader.Descend, Find;
    var (mode, id) := ld.Head(t).value;
    var n := Nonwhite(ld.Head(t).rest);
    if At(n, '.') {
      NewDescend(ld, kids, id, mode, n.rest);
    } else {
      DefineIsBody(ld, kids, id, mode, n, false);
      DefineIsBody(ld, [], id, mode, n, false);
      NewBody(ld, kids, id, mode, AfterEquals(n));
    }
  }

  lemma NewDescend(ld: Loader, kids: seq<Node>, id: string, mode: Mode, t: string)
    requires Find(kids, id).None? && !mode.Merge?
    ensures Appends(ld.Descend(kids, id, mode, t, false), kids, ld.Descend([], id, mode, t, false))
  {
    hide Loader.ParseDef;
    assert Locate(kids, id, mode) == Fresh(kids) && Locate([], id, mode) == Fresh([]);
  }

  lemma NewBody(ld: Loader, kids: seq<Node>, id: string, mode: Mode, n: Next)
    requires Find(kids, id).None? && !mode.Merge?
    ensures Appends(ld.Body(kids, id, mode, n, false), kids, ld.Body([], id, mode, n, false))
  {
    hide Nonwhite, GetString, Loader.ParseDefs, Loader.ParseArrayDefs, Loader.Scalar, SkipSep;
    assert Locate(kids, id, mode) == Fresh(kids) && Locate([], id, mode) == Fresh([]);
  }

  // ----- and where the id is there

  /** What a definition does to a tree with its id at place i is what it does to that child alone. */
  ghost predicate Updates(r: Res<seq<Node>>, kids: seq<Node>, i: nat, alone: Res<seq<Node>>)
    requires i < |kids|
  {
    && r.Ok? == alone.Ok?
    && (r.Ok? ==> r.rest == alone.rest && |alone.value| == 1 && r.value == kids[i := alone.value[0]])
  }

  lemma FindAlone(kids: seq<Node>, id: string)
    requires Find(kids, id).Some?
    ensures Find([kids[Find(kids, id).value]], id) == Some(0)
  {
  }

  /** A merging definition of an id that is there changes that child as if it were the only one. */
  lemma OldEntryMerged(ld: Loader, kids: seq<Node>, t: string)
    requires ld.Head(t).Ok? && Find(kids, ld.Head(t).value.1).Some?
    requires ld.Head(t).value.0.Merge? || ld.Head(t).value.0.MergeCreate?
    ensures var i := Find(kids, ld.Head(t).value.1).value;
            Updates(ld.ParseDef(kids, t, false), kids, i, ld.ParseDef([kids[i]], t, false))
  {
    hide Nonwhite, Loader.Head, Loader.Body, Loader.Descend, Find;
    var (mode, id) := ld.Head(t).value;
    var n := Nonwhite(ld.Head(t).rest);
    var one := [kids[Find(kids, id).value]];
    if At(n, '.') {
      OldDescend(ld, kids, id, mode, n.rest);
    } else {
      DefineIsBody(ld, kids, id, mode, n, false);
      DefineIsBody(ld, one, id, mode, n, false);
      OldBody(ld, kids, id, mode, AfterEquals(n));
    }
  }

  lemma OldDescend(ld: Loader, kids: seq<Node>, id: string, mode: Mode, t: string)
    requires Find(kids, id).Some? && (mode.Merge? || mode.MergeCreate?)
    ensures var i := Find(kids, id).value;
            Updates(ld.Descend(kids, id, mode, t, false), kids, i, ld.Descend([kids[i]], id, mode, t, false))
  {
    hide Loader.ParseDef, Find;
    FindAlone(kids, id);
  }

  lemma OldBody(ld: Loader, kids: seq<Node>, id: string, mode: Mode, n: Next)
    requires Find(kids, id).Some? && (mode.Merge? || mode.MergeCreate?)
    ensures var i := Find(kids, id).value;
            Updates(ld.Body(kids, id, mode, n, false), kids, i, ld.Body([kids[i]], id, mode, n, false))
  {
    hide Nonwhite, GetString, Loader.ParseDefs, Loader.ParseArrayDefs, Loader.Scalar, SkipSep, Find, Assign;
    FindAlone(kids, id);
  }
}
