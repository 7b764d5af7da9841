/**
 What a load leaves behind, also where it fails (conf.c:1263-1531): the children then, and whether anything has been
 done that a load must not do.  Definitions change the tree as they are read, and nothing is undone, but a block that
 does not close is deleted.
 */
module Aftermath {
  import opened Numbers
  import opened Lexer
  import opened Tree
  import opened Parser
  import opened Skipping

  /**
   Unset: a pointer that was never given a value is deleted.  Taken: a node is deleted at or below which somebody else
   holds a reference.  The load is followed no further then.
   */
  datatype Fate = Sound | Unset | Taken

  datatype Left = Left(kids: seq<Node>, fate: Fate)

  /** The paths to nodes at or below which somebody holds a reference. */
  type Paths = iset<seq<string>>

  /** An overriding definition deletes a child that is held. */
  ghost predicate Loses(kids: seq<Node>, id: string, mode: Mode, held: Paths) {
    mode.Override? && Find(kids, id).Some? && [id] in held
  }

  /** The children without the located one: an overridden child has gone, a new one has not come. */
  function Unopened(kids: seq<Node>, slot: Slot): seq<Node>
    requires slot.Existing? ==> slot.i < |kids|
  {
    match slot
    case Existing(i) => Delete(kids, i)
    case Fresh(base) => base
    case _ => kids
  }

  /** The children as they are while nothing has been made of the located one. */
  function Cleared(kids: seq<Node>, slot: Slot): seq<Node> {
    if slot.Fresh? then slot.base else kids
  }

  ghost function LeftDef(ld: Loader, kids: seq<Node>, t: string, held: Paths): Left
    decreases |t|, 1
  {
    match ld.Head(t)
    case Err(_, _) => Left(kids, Sound)
    case Ok((mode, id), r1) =>
      var n := Nonwhite(r1);
      if At(n, '.') then LeftDescend(ld, kids, id, mode, n.rest, held) else LeftDefine(ld, kids, id, mode, n, held)
  }

  ghost function LeftDefine(ld: Loader, kids: seq<Node>, id: string, mode: Mode, n: Next, held: Paths): Left
    decreases |Back(n)|, 2
  {
    var m := if At(n, '=') then Nonwhite(n.rest) else n;
    if At(n, '=') && !m.Char? then Left(kids, Sound) else LeftBody(ld, kids, id, mode, m, held)
  }

  /** The dot.  With `?` before an id that is there, n is that child while the rest of the definition is read over. */
  ghost function LeftDescend(ld: Loader, kids: seq<Node>, id: string, mode: Mode, t: string, held: Paths): Left
    decreases |t|, 2
  {
    var slot := Locate(kids, id, mode);
    if Loses(kids, id, mode, held) then Left(kids, Taken)
    else if slot.Skipped? then
      match OverDef(ld, t)
      case Closed => Left(kids, Sound)
      case Wild => Left(kids, Unset)
      case Unclosed => if [id] in held then Left(kids, Taken) else Left(DeleteId(kids, id), Sound)
    else if slot.Failed? || !SlotOpens(kids, slot) then Left(kids, Sound)
    else
      var sub := LeftDef(ld, SlotKids(kids, slot), t, PathsIn(held, id));
      Left(Store(kids, slot, id, Compound(sub.kids, true)), sub.fate)
  }

  /** The value.  With `?` before an id that is there, n is NULL while the value is read over. */
  ghost function LeftBody(ld: Loader, kids: seq<Node>, id: string, mode: Mode, n: Next, held: Paths): Left
    decreases |Back(n)|, 1
  {
    var slot := Locate(kids, id, mode);
    if Loses(kids, id, mode, held) then Left(kids, Taken)
    else if slot.Failed? then Left(kids, Sound)
    else if slot.Skipped? then Left(kids, if OverBody(ld, n).Wild? then Unset else Sound)
    else if !Opens(n) then LeftScalar(ld, kids, id, slot, Back(n))
    else if !SlotOpens(kids, slot) then Left(kids, Sound)
    else LeftBlock(ld, kids, id, slot, n.c, n.rest, held)
  }

  ghost function LeftScalar(ld: Loader, kids: seq<Node>, id: string, slot: Slot, t: string): Left
    requires slot.Existing? ==> slot.i < |kids|
  {
    match ld.ScalarDef(kids, id, slot, t)
    case Ok(kids1, _) => Left(kids1, Sound)
    case Err(_, _) => Left(Cleared(kids, slot), Sound)
  }

  /** What is read in a block or a list. */
  function BlockRest(ld: Loader, sub: seq<Node>, open: char, t: string): Res<seq<Node>> {
    if open == '{' then ld.ParseDefs(sub, t, false) else ld.ParseArrayDefs(sub, t, 0, false)
  }

  /** The block: where it does not close, its compound is deleted, be it new or old. */
  ghost function LeftBlock(ld: Loader, kids: seq<Node>, id: string, slot: Slot, open: char, t: string,
                           held: Paths): Left
    requires slot.Existing? ==> slot.i < |kids|
    decreases |t|, 3
  {
    var sub, inner := SlotKids(kids, slot), LeftInside(ld, SlotKids(kids, slot), open, t, PathsIn(held, id));
    var all := Store(kids, slot, id, Compound(inner.kids, SlotJoin(kids, slot)));
    if !inner.fate.Sound? || At(Nonwhite(BlockRest(ld, sub, open, t).rest), Closing(open)) then Left(all, inner.fate)
    else if [id] in held then Left(all, Taken)
    else Left(Unopened(kids, slot), Sound)
  }

  ghost function LeftInside(ld: Loader, sub: seq<Node>, open: char, t: string, held: Paths): Left
    decreases |t|, 3, 0
  {
    if open == '{' then LeftDefs(ld, sub, t, held) else LeftItems(ld, sub, t, 0, held)
  }

  ghost function LeftDefs(ld: Loader, kids: seq<Node>, t: string, held: Paths): Left
    decreases |t|, 2
  {
    var n := Nonwhite(t);
    if !n.Char? || n.c == '}' then Left(kids, Sound)
    else
      var d, r := LeftDef(ld, kids, Back(n), held), ld.ParseDef(kids, Back(n), false);
      if d.fate.Sound? && r.Ok? then LeftDefs(ld, d.kids, r.rest, held) else d
  }

  ghost function LeftItems(ld: Loader, kids: seq<Node>, t: string, idx: nat, held: Paths): Left
    decreases |t|, 2
  {
    var n := Nonwhite(t);
    if !n.Char? || n.c == ']' then Left(kids, Sound)
    else
      var d, r := LeftItem(ld, kids, Back(n), idx, held), ld.ParseArrayDef(kids, Back(n), idx, false);
      if d.fate.Sound? && r.Ok? then LeftItems(ld, d.kids, r.rest, r.value.1 + 1, held) else d
  }

  /**
   An item: it is deleted only where another character than the closing one stands behind what was read without
   error.
   */
  ghost function LeftItem(ld: Loader, kids: seq<Node>, t: string, idx: nat, held: Paths): Left
    decreases |t|, 1
  {
    var (base, j) := ld.ItemSlot(kids, idx);
    var n := Nonwhite(t);
    if ld.override && Loses(kids, Decimal(idx), Override, held) then Left(kids, Taken)
    else if !Opens(n) then
      match ld.ParseArrayDef(kids, t, idx, false)
      case Ok((kids1, _), _) => Left(kids1, Sound)
      case Err(_, _) => Left(base, Sound)
    else
      var inner, r := LeftInside(ld, [], n.c, n.rest, PathsIn(held, Decimal(j))), BlockRest(ld, [], n.c, n.rest);
      var e := Nonwhite(r.rest);
      if inner.fate.Sound? && r.Ok? && e.Char? && e.c != Closing(n.c) then Left(base, Sound)
      else Left(base + [Node(Decimal(j), Compound(inner.kids, false))], inner.fate)
  }

  // ----- where the load succeeds, that is the tree it gives; a pointer without a value is read only where it fails

  ghost predicate Agrees(left: Left, r: Res<seq<Node>>) {
    && (left.fate.Unset? ==> r.Err?)
    && (left.fate.Sound? && r.Ok? ==> left.kids == r.value)
  }

  lemma {:induction false} DefAgrees(ld: Loader, kids: seq<Node>, t: string, held: Paths)
    ensures Agrees(LeftDef(ld, kids, t, held), ld.ParseDef(kids, t, false))
    decreases |t|, 1
  {
    hide Loader.Head, Nonwhite, Loader.Body, LeftBody, Loader.Descend, LeftDescend;
    if ld.Head(t).Ok? {
      var (mode, id) := ld.Head(t).value;
      var n := Nonwhite(ld.Head(t).rest);
      if At(n, '.') {
        DescendAgrees(ld, kids, id, mode, n.rest, held);
      } else if !At(n, '=') {
        BodyAgrees(ld, kids, id, mode, n, held);
      } else if Nonwhite(n.rest).Char? {
        BodyAgrees(ld, kids, id, mode, Nonwhite(n.rest), held);
      }
    }
  }

  lemma {:induction false} DescendAgrees(ld: Loader, kids: seq<Node>, id: string, mode: Mode, t: string, held: Paths)
    ensures Agrees(LeftDescend(ld, kids, id, mode, t, held), ld.Descend(kids, id, mode, t, false))
    decreases |t|, 2
  {
    hide Locate, Loader.ParseDef, LeftDef, OverDef, Store, SlotOpens, SlotKids;
    var slot := Locate(kids, id, mode);
    if slot.Skipped? {
      assert ld.Descend(kids, id, mode, t, false) == ld.ParseDef(kids, t, true);
      WildFails(ld, t);
      DefSkips(ld, kids, t);
    } else if !slot.Failed? && SlotOpens(kids, slot) {
      DefAgrees(ld, SlotKids(kids, slot), t, PathsIn(held, id));
    }
  }

  lemma {:induction false} BodyAgrees(ld: Loader, kids: seq<Node>, id: string, mode: Mode, n: Next, held: Paths)
    ensures Agrees(LeftBody(ld, kids, id, mode, n, held), ld.Body(kids, id, mode, n, false))
    decreases |Back(n)|, 1
  {
    hide Locate, Loader.Block, LeftBlock, OverBlock, Loader.ScalarDef, SlotOpens;
    var slot := Locate(kids, id, mode);
    if slot.Skipped? {
      if Opens(n) {
        WildBlockFails(ld, n.c, n.rest);
        BlockSkips(ld, kids, id, n.c, n.rest);
      }
    } else if !slot.Failed? && Opens(n) && SlotOpens(kids, slot) {
      BlockAgrees(ld, kids, id, slot, n.c, n.rest, held);
    }
  }

  lemma {:induction false} BlockAgrees(ld: Loader, kids: seq<Node>, id: string, slot: Slot, open: char, t: string,
                                       held: Paths)
    requires (slot.Existing? ==> slot.i < |kids|) && !slot.Skipped?
    ensures Agrees(LeftBlock(ld, kids, id, slot, open, t, held), ld.Block(kids, id, slot, open, t))
    decreases |t|, 4
  {
    hide Loader.ParseDefs, Loader.ParseArrayDefs, LeftInside, Nonwhite, Store, SlotKids, SlotJoin, SkipSep;
    InsideAgrees(ld, SlotKids(kids, slot), open, t, PathsIn(held, id));
  }

  lemma {:induction false} InsideAgrees(ld: Loader, sub: seq<Node>, open: char, t: string, held: Paths)
    ensures Agrees(LeftInside(ld, sub, open, t, held), BlockRest(ld, sub, open, t))
    decreases |t|, 3
  {
    if open == '{' {
      DefsAgree(ld, sub, t, held);
    } else {
      ItemsAgree(ld, sub, t, 0, held);
    }
  }

  lemma {:induction false} DefsAgree(ld: Loader, kids: seq<Node>, t: string, held: Paths)
    ensures Agrees(LeftDefs(ld, kids, t, held), ld.ParseDefs(kids, t, false))
    decreases |t|, 2
  {
    hide Nonwhite, Loader.ParseDef, LeftDef;
    var n := Nonwhite(t);
    if n.Char? && n.c != '}' {
      DefAgrees(ld, kids, Back(n), held);
      var d, r := LeftDef(ld, kids, Back(n), held), ld.ParseDef(kids, Back(n), false);
      if d.fate.Sound? && r.Ok? {
        DefsAgree(ld, d.kids, r.rest, held);
      }
    }
  }

  lemma {:induction false} ItemsAgree(ld: Loader, kids: seq<Node>, t: string, idx: nat, held: Paths)
    ensures Agrees(LeftItems(ld, kids, t, idx, held), ld.ParseArrayDefs(kids, t, idx, false))
    decreases |t|, 2
  {
    hide Nonwhite, Loader.ParseArrayDef, LeftItem;
    var n := Nonwhite(t);
    if n.Char? && n.c != ']' {
      ItemAgrees(ld, kids, Back(n), idx, held);
      var d, r := LeftItem(ld, kids, Back(n), idx, held), ld.ParseArrayDef(kids, Back(n), idx, false);
      if d.fate.Sound? && r.Ok? {
        ItemsAgree(ld, d.kids, r.rest, r.value.1 + 1, held);
      }
    }
  }

  lemma {:induction false} ItemAgrees(ld: Loader, kids: seq<Node>, t: string, idx: nat, held: Paths)
    ensures var left, r := LeftItem(ld, kids, t, idx, held), ld.ParseArrayDef(kids, t, idx, false);
            (left.fate.Unset? ==> r.Err?) && (left.fate.Sound? && r.Ok? ==> left.kids == r.value.0)
    decreases |t|, 1
  {
    hide Nonwhite, Loader.ParseDefs, Loader.ParseArrayDefs, LeftInside, Loader.ItemSlot, Decimal, GetString,
         Loader.Scalar;
    var n := Nonwhite(t);
    if Opens(n) {
      InsideAgrees(ld, [], n.c, n.rest, PathsIn(held, Decimal(ld.ItemSlot(kids, idx).1)));
    }
  }
}
