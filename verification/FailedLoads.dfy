/**
 Loads that fail (conf.c:1372-1531): what becomes of the compound whose block does not close, of the child that `?` was
 to keep, and of a pointer that was never given a value.
 */
module FailedLoads {
  import opened Numbers
  import opened Lexer
  import opened Tree
  import opened Parser
  import opened Skipping
  import opened Aftermath
  import opened Desugar

  /** What follows a key opens a block or a list, w being what stands behind the opening character. */
  predicate OpensBlock(u: string, open: char, w: string) {
    Separated(u, true) && Nonwhite(u) == Char(open, w) && (open == '{' || open == '[')
  }

  /** What follows a key is a block that the text does not close, or one that holds such a block. */
  predicate EndsOpen(ld: Loader, u: string) {
    Separated(u, true) && Opens(Nonwhite(u)) && OverBody(ld, Nonwhite(u)) != Closed
  }

  lemma KeyFirst(ld: Loader, p: string, mode: Mode, id: string, u: string)
    requires IsKey(ld, p, mode, id) && Separated(u, true)
    ensures ld.Head(p + u) == Ok((mode, id), u) && ld.Head(Back(Nonwhite(p + u))) == Ok((mode, id), u)
    ensures Nonwhite(p + u).Char? && Nonwhite(p + u).c != '}' && Nonwhite(p + u).c != ']'
  {
    hide Nonwhite, GetString;
    assert ld.Head(p + u) == Ok((mode, id), u);
    HeadBack(ld, p + u);
    StartsNoClosing(ld, p + u);
  }

  lemma StartsNoClosing(ld: Loader, t: string)
    requires ld.Head(t).Ok?
    ensures Nonwhite(t).Char? && Nonwhite(t).c != '}' && Nonwhite(t).c != ']'
  {
    NonwhiteBack(t);
  }

  /** A key with a value behind it. */
  lemma KeyThenValue(ld: Loader, kids: seq<Node>, p: string, mode: Mode, id: string, u: string, held: Paths)
    requires IsKey(ld, p, mode, id) && Separated(u, true) && !At(Nonwhite(u), '.') && !At(Nonwhite(u), '=')
    ensures var t := Back(Nonwhite(p + u));
            && LeftDef(ld, kids, t, held) == LeftBody(ld, kids, id, mode, Nonwhite(u), held)
            && ld.ParseDef(kids, t, false) == ld.Body(kids, id, mode, Nonwhite(u), false)
  {
    hide IsKey, Nonwhite, Loader.Head, LeftBody, Loader.Body;
    KeyFirst(ld, p, mode, id, u);
    var t, n := Back(Nonwhite(p + u)), Nonwhite(u);
    assert LeftDef(ld, kids, t, held) == LeftDefine(ld, kids, id, mode, n, held);
    assert ld.ParseDef(kids, t, false) == ld.Define(kids, id, mode, n, false);
  }

  /** A key with a dot behind it. */
  lemma KeyThenDot(ld: Loader, kids: seq<Node>, p: string, mode: Mode, id: string, u: string, held: Paths)
    requires IsKey(ld, p, mode, id) && Separated(u, true) && At(Nonwhite(u), '.')
    ensures var t, w := Back(Nonwhite(p + u)), Nonwhite(u).rest;
            && LeftDef(ld, kids, t, held) == LeftDescend(ld, kids, id, mode, w, held)
            && ld.ParseDef(kids, t, false) == ld.Descend(kids, id, mode, w, false)
  {
    hide IsKey, Nonwhite, Loader.Head, LeftDescend, Loader.Descend;
    KeyFirst(ld, p, mode, id, u);
  }

  // ----- the pointer without a value

  /** A definition that is read over and ends open, in a block that is read over: its n was never set. */
  lemma UnsetInSkipped(ld: Loader, kids: seq<Node>, p: string, id: string, u: string, w: string,
                       q: string, mode: Mode, inner: string, x: string, held: Paths)
    requires IsKey(ld, p, DontOverride, id) && Find(kids, id).Some? && OpensBlock(u, '{', w)
    requires IsKey(ld, q, mode, inner) && Back(Nonwhite(w)) == q + x && EndsOpen(ld, x)
    ensures LeftDefs(ld, kids, p + u, held) == Left(kids, Unset) && ld.Load(kids, p + u).None?
  {
    hide IsKey, Nonwhite, OverBody, Loader.Head, Find, Loader.ParseDefs, Loader.ParseDef;
    OpenInside(ld, q, mode, inner, w, x);
    KeyFirst(ld, p, DontOverride, id, u);
    SkipsBlock(ld, kids, p, id, u, w, held);
    DefsStart(ld, kids, p + u, held);
    DefsAgree(ld, kids, p + u, held);
  }

  lemma OpenInside(ld: Loader, q: string, mode: Mode, inner: string, w: string, x: string)
    requires IsKey(ld, q, mode, inner) && Back(Nonwhite(w)) == q + x && EndsOpen(ld, x)
    ensures WildDefs(ld, w)
  {
    hide IsKey, Nonwhite, OverBody, Loader.Head, Loader.ParseDef;
    KeyFirst(ld, q, mode, inner, x);
    NonwhiteBack(w);
    assert Nonwhite(w) == Nonwhite(q + x);
    assert OverDef(ld, q + x) == OverBody(ld, Nonwhite(x));
  }

  lemma SkipsBlock(ld: Loader, kids: seq<Node>, p: string, id: string, u: string, w: string, held: Paths)
    requires IsKey(ld, p, DontOverride, id) && Find(kids, id).Some? && OpensBlock(u, '{', w) && WildDefs(ld, w)
    ensures LeftDef(ld, kids, Back(Nonwhite(p + u)), held) == Left(kids, Unset)
  {
    hide IsKey, Nonwhite, Loader.Head, Find, WildDefs;
    KeyThenValue(ld, kids, p, DontOverride, id, u, held);
    assert Locate(kids, id, DontOverride).Skipped?;
    assert OverBody(ld, Nonwhite(u)) == OverBlock(ld, '{', w);
  }

  /** The first definition decides where it fails. */
  lemma DefsStart(ld: Loader, kids: seq<Node>, t: string, held: Paths)
    requires Nonwhite(t).Char? && Nonwhite(t).c != '}'
    ensures var d := LeftDef(ld, kids, Back(Nonwhite(t)), held);
            d.fate != Sound || ld.ParseDef(kids, Back(Nonwhite(t)), false).Err? ==> LeftDefs(ld, kids, t, held) == d
    ensures ld.ParseDef(kids, Back(Nonwhite(t)), false).Err? ==> ld.Load(kids, t).None?
  {
    hide Nonwhite, LeftDef, Loader.ParseDef;
  }

  // ----- what is deleted

  /** `?a.` in front of a definition that ends open: the child that was to be kept is gone. */
  lemma QuestionDeletes(ld: Loader, kids: seq<Node>, p: string, id: string, u: string, held: Paths)
    requires IsKey(ld, p, DontOverride, id) && Find(kids, id).Some? && [id] !in held
    requires Separated(u, true) && At(Nonwhite(u), '.') && OverDef(ld, Nonwhite(u).rest).Unclosed?
    ensures LeftDefs(ld, kids, p + u, held) == Left(DeleteId(kids, id), Sound) && ld.Load(kids, p + u).None?
  {
    hide IsKey, Nonwhite, Loader.Head, Find, OverDef, Loader.ParseDef, Loader.ParseDefs, DeleteId;
    KeyFirst(ld, p, DontOverride, id, u);
    KeyThenDot(ld, kids, p, DontOverride, id, u, held);
    assert Locate(kids, id, DontOverride).Skipped?;
    WildFails(ld, Nonwhite(u).rest);
    DefSkips(ld, kids, Nonwhite(u).rest);
    DefsStart(ld, kids, p + u, held);
  }

  lemma OpenBlock(ld: Loader, kids: seq<Node>, id: string, i: nat, w: string, held: Paths)
    requires i < |kids| && kids[i].value.Compound? && [id] !in held
    requires var sub := kids[i].value.kids;
             && LeftDefs(ld, sub, w, PathsIn(held, id)).fate == Sound
             && !At(Nonwhite(ld.ParseDefs(sub, w, false).rest), '}')
    ensures LeftBlock(ld, kids, id, Existing(i), '{', w, held) == Left(Delete(kids, i), Sound)
    ensures ld.Block(kids, id, Existing(i), '{', w).Err?
  {
    hide Nonwhite, LeftDefs, Loader.ParseDefs, PathsIn;
    assert SlotKids(kids, Existing(i)) == kids[i].value.kids;
  }

  /** A block that does not close, in a merging mode: the compound that is there goes, with all that it held before. */
  lemma UnclosedDeletes(ld: Loader, kids: seq<Node>, p: string, mode: Mode, id: string, u: string, w: string,
                        held: Paths)
    requires IsKey(ld, p, mode, id) && (mode.Merge? || mode.MergeCreate?) && OpensBlock(u, '{', w) && [id] !in held
    requires Find(kids, id).Some? && kids[Find(kids, id).value].value.Compound?
    requires var sub := kids[Find(kids, id).value].value.kids;
             && LeftDefs(ld, sub, w, PathsIn(held, id)).fate == Sound
             && !At(Nonwhite(ld.ParseDefs(sub, w, false).rest), '}')
    ensures LeftDefs(ld, kids, p + u, held) == Left(Delete(kids, Find(kids, id).value), Sound)
    ensures ld.Load(kids, p + u).None?
  {
    var i := Find(kids, id).value;
    OpenBlock(ld, kids, id, i, w, held);
    hide IsKey, Nonwhite, Loader.Head, Find, LeftDefs, Loader.ParseDef, Loader.ParseDefs, PathsIn, LeftBlock, Loader.Block;
    KeyFirst(ld, p, mode, id, u);
    KeyThenValue(ld, kids, p, mode, id, u, held);
    assert Locate(kids, id, mode) == Existing(i) && SlotKids(kids, Existing(i)) == kids[i].value.kids;
    assert LeftBody(ld, kids, id, mode, Nonwhite(u), held) == LeftBlock(ld, kids, id, Existing(i), '{', w, held);
    assert ld.Body(kids, id, mode, Nonwhite(u), false) == ld.Block(kids, id, Existing(i), '{', w);
    DefsStart(ld, kids, p + u, held);
  }

  /** An overriding definition of a child that somebody holds deletes it, whatever its value is. */
  lemma OverrideTakes(ld: Loader, kids: seq<Node>, p: string, id: string, u: string, held: Paths)
    requires IsKey(ld, p, Override, id) && Separated(u, true) && !At(Nonwhite(u), '=')
    requires Find(kids, id).Some? && [id] in held
    ensures LeftDefs(ld, kids, p + u, held) == Left(kids, Taken)
  {
    hide IsKey, Nonwhite, Loader.Head, Find, Loader.ParseDef;
    KeyFirst(ld, p, Override, id, u);
    if At(Nonwhite(u), '.') {
      KeyThenDot(ld, kids, p, Override, id, u, held);
    } else {
      KeyThenValue(ld, kids, p, Override, id, u, held);
    }
    DefsStart(ld, kids, p + u, held);
  }

  // ----- a text without question marks never reads it

  predicate Unmarked(t: string) {
    '?' !in t
  }

  lemma {:induction false} NextFree(t: string)
    requires Unmarked(t)
    ensures Unmarked(Back(Nonwhite(t))) && (!Nonwhite(t).Eof? ==> Unmarked(Nonwhite(t).rest))
    ensures Nonwhite(t).Char? ==> Nonwhite(t).c != '?'
    decreases |t|
  {
    if t != [] {
      if t[0] == '#' {
        CommentFree(t[1..]);
        NextFree(SkipComment(t[1..]));
      } else if IsBlank(t[0]) {
        NextFree(t[1..]);
      }
    }
  }

  lemma {:induction false} CommentFree(t: string)
    requires Unmarked(t)
    ensures Unmarked(SkipComment(t))
  {
    if t != [] && t[0] != '\n' {
      CommentFree(t[1..]);
    }
  }

  lemma QuotedFree(t: string)
    requires Unmarked(t) && QuotedChar(t).Ok?
    ensures Unmarked(QuotedChar(t).rest)
  {
    OctalFree(t[1..], t[0] as int - '0' as int, 2);
  }

  lemma {:induction false} OctalFree(t: string, num: int, more: nat)
    requires Unmarked(t)
    ensures num >= 0 ==> Unmarked(OctalTail(t, num, more).1)
    decreases more
  {
    if num >= 0 && more > 0 && t != [] && IsOctal(t[0]) {
      OctalFree(t[1..], num * 8 + (t[0] as int - '0' as int), more - 1);
    }
  }

  lemma {:induction false} DelimFree(t: string, delim: char)
    requires Unmarked(t) && DelimString(t, delim).Ok?
    ensures Unmarked(DelimString(t, delim).rest)
    decreases |t|
  {
    hide QuotedChar;
    if t[0] == '\\' {
      QuotedFree(t[1..]);
      DelimFree(QuotedChar(t[1..]).rest, delim);
    } else if t[0] != delim {
      DelimFree(t[1..], delim);
    }
  }

  lemma StringFree(t: string, id: bool)
    requires Unmarked(t) && GetString(t, id).Ok?
    ensures Unmarked(GetString(t, id).rest)
  {
    hide Nonwhite, DelimString, FreeString;
    NextFree(t);
    var n := Nonwhite(t);
    if IsQuote(n.c) {
      DelimFree(n.rest, n.c);
    } else {
      var (s, r) := FreeString([n.c] + n.rest, id);
      assert s + r == [n.c] + n.rest;
    }
  }

  lemma HeadFree(ld: Loader, t: string)
    requires Unmarked(t) && ld.Head(t).Ok?
    ensures Unmarked(ld.Head(t).rest) && !ld.Head(t).value.0.DontOverride?
  {
    hide Nonwhite, GetString;
    NextFree(t);
    var n := Nonwhite(t);
    StringFree(ld.ReadMode(n.c, n.rest).1, true);
  }

  /** Nobody holds a node below. */
  ghost predicate NoneHeld(held: Paths) {
    forall path | path in held :: path == []
  }

  lemma NoneHeldInside(held: Paths, id: string)
    requires NoneHeld(held)
    ensures NoneHeld(PathsIn(held, id)) && [id] !in held
  {
    forall path: seq<string>
      ensures path !in PathsIn(held, id)
    {
      assert [id] + path != [];
    }
  }

  /**
   What is read leaves a text without `?` again, and no pointer without a value has been read; where nobody holds
   anything, nothing has been taken either.
   */
  ghost predicate Kept<T>(left: Left, r: Res<T>, held: Paths) {
    left.fate != Unset && (left.fate.Sound? && r.Ok? ==> Unmarked(r.rest)) && (NoneHeld(held) ==> left.fate.Sound?)
  }

  lemma {:induction false} DefKept(ld: Loader, kids: seq<Node>, t: string, held: Paths)
    requires Unmarked(t)
    ensures Kept(LeftDef(ld, kids, t, held), ld.ParseDef(kids, t, false), held)
    decreases |t|, 1
  {
    hide Nonwhite, Loader.Head, Loader.Body, LeftBody, Loader.Descend, LeftDescend, Unmarked;
    if ld.Head(t).Ok? {
      HeadFree(ld, t);
      var (mode, id) := ld.Head(t).value;
      NextFree(ld.Head(t).rest);
      var n := Nonwhite(ld.Head(t).rest);
      if At(n, '.') {
        DescendKept(ld, kids, id, mode, n.rest, held);
      } else if !At(n, '=') {
        BodyKept(ld, kids, id, mode, n, held);
      } else {
        NextFree(n.rest);
        BodyKept(ld, kids, id, mode, Nonwhite(n.rest), held);
      }
    }
  }

  lemma {:induction false} DescendKept(ld: Loader, kids: seq<Node>, id: string, mode: Mode, t: string, held: Paths)
    requires Unmarked(t) && !mode.DontOverride?
    ensures Kept(LeftDescend(ld, kids, id, mode, t, held), ld.Descend(kids, id, mode, t, false), held)
    decreases |t|, 2
  {
    hide Loader.ParseDef, LeftDef, Store, SlotOpens, SlotKids, Unmarked, Find;
    var slot := Locate(kids, id, mode);
    DefKept(ld, SlotKids(kids, slot), t, PathsIn(held, id));
    if NoneHeld(held) {
      NoneHeldInside(held, id);
    }
  }

  lemma {:induction false} BodyKept(ld: Loader, kids: seq<Node>, id: string, mode: Mode, n: Next, held: Paths)
    requires Unmarked(Back(n)) && !mode.DontOverride?
    ensures Kept(LeftBody(ld, kids, id, mode, n, held), ld.Body(kids, id, mode, n, false), held)
    decreases |Back(n)|, 1
  {
    hide Loader.Block, LeftBlock, Loader.ScalarDef, SlotOpens, Find;
    var slot := Locate(kids, id, mode);
    if NoneHeld(held) {
      NoneHeldInside(held, id);
    }
    if Opens(n) {
      BlockKept(ld, kids, id, slot, n.c, n.rest, held);
    } else {
      ScalarKept(ld, kids, id, slot, Back(n), held);
    }
  }

  lemma ScalarKept(ld: Loader, kids: seq<Node>, id: string, slot: Slot, t: string, held: Paths)
    requires Unmarked(t) && (slot.Existing? ==> slot.i < |kids|)
    ensures Kept(LeftScalar(ld, kids, id, slot, t), ld.ScalarDef(kids, id, slot, t), held)
  {
    hide GetString, Assign, Store, Loader.Scalar, Unmarked, SkipSep;
    if GetString(t, false).Ok? {
      StringFree(t, false);
      SepFree(GetString(t, false).rest);
    }
  }

  lemma SepFree(t: string)
    requires Unmarked(t)
    ensures Unmarked(SkipSep(t))
  {
    hide Nonwhite;
    NextFree(t);
  }

  lemma {:induction false} BlockKept(ld: Loader, kids: seq<Node>, id: string, slot: Slot, open: char, t: string,
                                     held: Paths)
    requires Unmarked(t) && (slot.Existing? ==> slot.i < |kids|) && !slot.Skipped?
    ensures Kept(LeftBlock(ld, kids, id, slot, open, t, held), ld.Block(kids, id, slot, open, t), held)
    decreases |t|, 4
  {
    hide Loader.ParseDefs, Loader.ParseArrayDefs, LeftInside, Nonwhite, Store, SlotKids, SlotJoin, SkipSep, Unmarked;
    InsideKept(ld, SlotKids(kids, slot), open, t, PathsIn(held, id));
    if NoneHeld(held) {
      NoneHeldInside(held, id);
    }
    var r := BlockRest(ld, SlotKids(kids, slot), open, t);
    MaybeFree(r.rest);
    if At(Nonwhite(r.rest), Closing(open)) && Unmarked(Nonwhite(r.rest).rest) {
      SepFree(Nonwhite(r.rest).rest);
    }
  }

  lemma {:induction false} InsideKept(ld: Loader, sub: seq<Node>, open: char, t: string, held: Paths)
    requires Unmarked(t)
    ensures Kept(LeftInside(ld, sub, open, t, held), BlockRest(ld, sub, open, t), held)
    decreases |t|, 3
  {
    hide Unmarked;
    if open == '{' {
      DefsKept(ld, sub, t, held);
    } else {
      ItemsKept(ld, sub, t, 0, held);
    }
  }

  lemma {:induction false} DefsKept(ld: Loader, kids: seq<Node>, t: string, held: Paths)
    requires Unmarked(t)
    ensures Kept(LeftDefs(ld, kids, t, held), ld.ParseDefs(kids, t, false), held)
    decreases |t|, 2
  {
    hide Nonwhite, Loader.ParseDef, LeftDef, Unmarked;
    NextFree(t);
    var n := Nonwhite(t);
    if n.Eof? {
      assert Unmarked([]) by { NothingFree(); }
    } else if n.Char? && n.c != '}' {
      DefAgrees(ld, kids, Back(n), held);
      DefKept(ld, kids, Back(n), held);
      var d, r := LeftDef(ld, kids, Back(n), held), ld.ParseDef(kids, Back(n), false);
      if d.fate.Sound? && r.Ok? {
        DefsKept(ld, d.kids, r.rest, held);
      }
    }
  }

  lemma {:induction false} ItemsKept(ld: Loader, kids: seq<Node>, t: string, idx: nat, held: Paths)
    requires Unmarked(t)
    ensures Kept(LeftItems(ld, kids, t, idx, held), ld.ParseArrayDefs(kids, t, idx, false), held)
    decreases |t|, 2
  {
    hide Nonwhite, Loader.ParseArrayDef, LeftItem, Unmarked;
    NextFree(t);
    var n := Nonwhite(t);
    if n.Char? && n.c != ']' {
      ItemAgrees(ld, kids, Back(n), idx, held);
      ItemKept(ld, kids, Back(n), idx, held);
      var d, r := LeftItem(ld, kids, Back(n), idx, held), ld.ParseArrayDef(kids, Back(n), idx, false);
      if d.fate.Sound? && r.Ok? {
        ItemsKept(ld, d.kids, r.rest, r.value.1 + 1, held);
      }
    }
  }

  lemma {:induction false} ItemKept(ld: Loader, kids: seq<Node>, t: string, idx: nat, held: Paths)
    requires Unmarked(t)
    ensures Kept(LeftItem(ld, kids, t, idx, held), ld.ParseArrayDef(kids, t, idx, false), held)
    decreases |t|, 1
  {
    hide Nonwhite, Loader.ParseDefs, Loader.ParseArrayDefs, LeftInside, Loader.ItemSlot, Decimal, GetString,
         Loader.Scalar, Unmarked;
    NextFree(t);
    var n := Nonwhite(t);
    if NoneHeld(held) {
      NoneHeldInside(held, Decimal(idx));
      NoneHeldInside(held, Decimal(ld.ItemSlot(kids, idx).1));
    }
    if Opens(n) {
      InsideKept(ld, [], n.c, n.rest, PathsIn(held, Decimal(ld.ItemSlot(kids, idx).1)));
      var r := BlockRest(ld, [], n.c, n.rest);
      if r.Ok? {
        MaybeFree(r.rest);
      }
    } else if n.Char? && GetString(Back(n), false).Ok? {
      StringFree(Back(n), false);
    }
  }

  lemma MaybeFree(t: string)
    ensures Unmarked(t) && !Nonwhite(t).Eof? ==> Unmarked(Nonwhite(t).rest)
  {
    if Unmarked(t) {
      NextFree(t);
    }
  }

  lemma NothingFree()
    ensures Unmarked([])
  {
  }

  /** A text without `?` never comes to it, and where nobody holds a node below, it is sound. */
  lemma NoQuestionSound(ld: Loader, kids: seq<Node>, t: string, held: Paths)
    requires '?' !in t
    ensures LeftDefs(ld, kids, t, held).fate != Unset
    ensures NoneHeld(held) ==> LeftDefs(ld, kids, t, held).fate == Sound
  {
    DefsKept(ld, kids, t, held);
  }

  // ----- at real texts

  /** One whole definition, and then the end of the text, where a block was to be closed. */
  lemma DefEndsOpen(ld: Loader, s: string)
    requires ld.ParseDef([], s, true) == Ok([], [])
    ensures OverBlock(ld, '{', s) == Unclosed
  {
    hide Nonwhite, Loader.ParseDef, OverDef;
    DefStarts(ld, [], s, true);
    WildFails(ld, Back(Nonwhite(s)));
    NothingLeft(ld);
  }

  lemma NothingLeft(ld: Loader)
    ensures Nonwhite([]) == Eof && ld.ParseDefs([], [], true) == Ok([], []) && !WildDefs(ld, [])
  {
  }

  /** `c 1` is one whole definition. */
  lemma OneLine(ld: Loader)
    ensures ld.ParseDef([], " c 1", true) == Ok([], [])
  {
    hide Nonwhite, GetString, Loader.Head, SkipSep;
    var u := " 1";
    LetterIsKey(ld, "c");
    assert ld.Head("c" + u) == Ok((ld.DefaultMode(), "c"), u);
    Blank('c', u);
    assert [' '] + (['c'] + u) == " c 1" && "c" + u == ['c'] + u;
    HeadBack(ld, " c 1");
    Blank('1', "");
    assert [' '] + (['1'] + "") == u;
    OneWord();
    assert ld.ParseDef([], " c 1", true) == ld.Define([], "c", ld.DefaultMode(), Char('1', ""), true);
    assert Back(Char('1', "")) == "1";
    assert ld.Body([], "c", ld.DefaultMode(), Char('1', ""), true) == ld.ScalarDef([], "c", Skipped, "1");
  }

  /** One blank is passed over. */
  lemma Blank(c: char, t: string)
    requires !IsBlank(c) && c != '#' && c != '<'
    ensures Nonwhite([' '] + ([c] + t)) == Char(c, t)
  {
    NonwhiteSkipsBlanks([' '], [c] + t);
    assert ([c] + t)[1..] == t;
  }

  lemma Dot(t: string)
    ensures Nonwhite(['.'] + t) == Char('.', t)
  {
    assert (['.'] + t)[1..] == t;
  }

  lemma OneWord()
    ensures GetString("1", false).Ok? && GetString("1", false).rest == [] && SkipSep([]) == []
  {
    var t := "1";
    assert t[1..] == [] && Nonwhite(t) == Char('1', []);
  }

  /** `b { c 1`, where the text ends before the block does. */
  lemma CutBlock(ld: Loader)
    ensures OverBody(ld, Nonwhite(" { c 1")) == Unclosed && EndsOpen(ld, " { c 1") && OverDef(ld, "b { c 1") == Unclosed
  {
    hide OverBlock, Nonwhite, Loader.Head, Loader.ParseDef;
    var x := " { c 1";
    OneLine(ld);
    DefEndsOpen(ld, " c 1");
    Blank('{', " c 1");
    assert [' '] + (['{'] + " c 1") == x;
    LetterIsKey(ld, "b");
    assert "b" + x == "b { c 1";
    assert ld.Head("b" + x) == Ok((ld.DefaultMode(), "b"), x);
  }

  /** `?a { b { c 1` loaded into a tree that has `a`: the block of b does not close, and its n was never set. */
  lemma UnsetExample(ld: Loader, kids: seq<Node>, held: Paths)
    requires Find(kids, "a").Some?
    ensures LeftDefs(ld, kids, "?a { b { c 1", held) == Left(kids, Unset) && ld.Load(kids, "?a { b { c 1").None?
  {
    hide IsKey, EndsOpen, Find, LeftDefs, Loader.Load, OverDef, OverBody, Nonwhite, Loader.DefaultMode;
    var u, w, x := " { b { c 1", " b { c 1", " { c 1";
    CutBlock(ld);
    LetterIsKey(ld, "a");
    LetterIsKey(ld, "b");
    Blank('{', w);
    Blank('b', x);
    assert ['?'] + "a" == "?a" && "?a" + u == "?a { b { c 1" && "b" + x == "b { c 1";
    assert [' '] + (['{'] + w) == u && [' '] + (['b'] + x) == w;
    UnsetInSkipped(ld, kids, "?a", "a", u, w, "b", ld.DefaultMode(), "b", x, held);
  }

  /** `?a.b { c 1` loaded into a tree that has `a`: n is a, which is deleted although `?` was to keep it. */
  lemma QuestionExample(ld: Loader, kids: seq<Node>, held: Paths)
    requires Find(kids, "a").Some? && ["a"] !in held
    ensures LeftDefs(ld, kids, "?a.b { c 1", held) == Left(DeleteId(kids, "a"), Sound)
    ensures ld.Load(kids, "?a.b { c 1").None?
  {
    hide IsKey, EndsOpen, Find, LeftDefs, Loader.Load, OverDef, OverBody, Nonwhite, DeleteId;
    var u := ".b { c 1";
    CutBlock(ld);
    LetterIsKey(ld, "a");
    assert ['?'] + "a" == "?a" && "?a" + u == "?a.b { c 1" && ['.'] + "b { c 1" == u;
    Dot("b { c 1");
    QuestionDeletes(ld, kids, "?a", "a", u, held);
  }

  /** `!a 1` loaded into a tree whose `a` somebody holds. */
  lemma OverrideExample(ld: Loader, kids: seq<Node>, held: Paths)
    requires Find(kids, "a").Some? && ["a"] in held
    ensures LeftDefs(ld, kids, "!a 1", held) == Left(kids, Taken)
  {
    var u := " 1";
    LetterIsKey(ld, "a");
    Blank('1', "");
    assert ['!'] + "a" == "!a" && "!a" + u == "!a 1" && [' '] + (['1'] + "") == u;
    hide IsKey, Find, LeftDefs, Nonwhite;
    OverrideTakes(ld, kids, "!a", "a", u, held);
  }
}
