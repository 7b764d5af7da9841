/** Two ways of writing the same: `a.b v` and `a { b v }`, `a [ v0 v1 ]` and `a.0 v0 a.1 v1`. */
module Desugar {
  import opened Numbers
  import opened Lexer
  import opened Tree
  import opened Parser
  import opened TokenPrinter
  import opened TokenRoundTrip
  import opened SavedForm
  import opened RoundTrip
  import opened Loading
  import opened Locality

  /** Equal but for the join flags of the compounds at this level. */
  predicate SameUpToJoin(a: seq<Node>, b: seq<Node>) {
    && |a| == |b|
    && forall i :: 0 <= i < |a| ==>
         && a[i].id == b[i].id
         && (a[i].value == b[i].value ||
             (a[i].value.Compound? && b[i].value.Compound? && a[i].value.kids == b[i].value.kids))
  }

  /** p is an id, perhaps with a mode prefix, whatever may follow it. */
  ghost predicate IsKey(ld: Loader, p: string, mode: Mode, id: string) {
    forall u | Separated(u, true) :: ld.Head(p + u) == Ok((mode, id), u)
  }

  function ModeOf(c: char, ld: Loader): Mode {
    ld.ReadMode(c, []).0
  }

  /** A printed id with any mode prefix is a key. */
  lemma PrefixedIdIsKey(ld: Loader, c: char, id: string)
    requires IsModeChar(c) && Survives(id, true)
    ensures IsKey(ld, [c] + StringPrint(id, true), ModeOf(c, ld), id)
  {
    hide GetString, StringPrint, Survives;
    forall u | Separated(u, true)
      ensures ld.Head([c] + StringPrint(id, true) + u) == Ok((ModeOf(c, ld), id), u)
    {
      var p := StringPrint(id, true) + u;
      assert [c] + StringPrint(id, true) + u == [c] + p && ([c] + p)[1..] == p;
      TokenComesBack(id, true, u);
    }
  }

  lemma PlainIdIsKey(ld: Loader, id: string)
    requires IdOk(id)
    ensures IsKey(ld, StringPrint(id, true), ld.DefaultMode(), id)
  {
    hide StringPrint, IdOk, Loader.Head;
    forall u | Separated(u, true)
      ensures ld.Head(StringPrint(id, true) + u) == Ok((ld.DefaultMode(), id), u)
    {
      HeadOfId(ld, id, u);
    }
  }

  lemma LetterPrints(a: string)
    requires a == "a" || a == "b" || a == "c"
    ensures IdOk(a) && StringPrint(a, true) == a && Survives(a, true)
  {
    assert !NeedsQuote(a[0]) && Plain(a[0]);
    assert !Quoted(a, true);
  }

  lemma LetterIsKey(ld: Loader, a: string)
    requires a == "a" || a == "b" || a == "c"
    ensures IsKey(ld, a, ld.DefaultMode(), a)
    ensures IsKey(ld, ['?'] + a, DontOverride, a) && IsKey(ld, ['!'] + a, Override, a)
  {
    hide IsKey, StringPrint, IdOk, Survives;
    LetterPrints(a);
    PlainIdIsKey(ld, a);
    PrefixedIdIsKey(ld, '?', a);
    PrefixedIdIsKey(ld, '!', a);
  }

  /** The text is exactly one definition, and no comment is left open behind it. */
  predicate OneDef(ld: Loader, s: string) {
    !CommentOpen(s) && ld.ParseDef([], s, true) == Ok([], [])
  }

  lemma HeadBack(ld: Loader, t: string)
    ensures ld.Head(Back(Nonwhite(t))) == ld.Head(t)
  {
    hide Nonwhite, GetString;
    NonwhiteBack(t);
  }

  /** A definition starts with something other than a closing brace. */
  lemma DefStarts(ld: Loader, kids: seq<Node>, t: string, skip: bool)
    requires ld.ParseDef(kids, t, skip).Ok?
    ensures Nonwhite(t).Char? && Nonwhite(t).c != '}'
    ensures ld.ParseDef(kids, Back(Nonwhite(t)), skip) == ld.ParseDef(kids, t, skip)
  {
    hide Nonwhite, Loader.Define, Loader.Descend;
    HeadBack(ld, t);
    if At(Nonwhite(t), '}') {
      StopString(Back(Nonwhite(t)), true);
    }
  }

  /** One definition in front of the end or a closing brace is all that is read there. */
  lemma DefsOfOne(ld: Loader, kids: seq<Node>, t: string, skip: bool, z: string)
    requires Stop(z) && ld.ParseDef(kids, t, skip).Ok? && ld.ParseDef(kids, t, skip).rest == z
    ensures ld.ParseDefs(kids, t, skip) == Ok(ld.ParseDef(kids, t, skip).value, z)
  {
    hide Nonwhite, Loader.ParseDef;
    DefStarts(ld, kids, t, skip);
    StopNext(z);
  }

  /**
   In front of a closing brace, one definition is read as in front of the end of the text, and the other way round.
   */
  lemma OneDefStops(ld: Loader, kids: seq<Node>, s: string, skip: bool)
    requires OneDef(ld, s)
    ensures ld.ParseDef(kids, s, skip).Ok? == ld.ParseDef(kids, s + ['}'], skip).Ok?
    ensures ld.ParseDef(kids, s, skip).Ok? ==>
              && ld.ParseDef(kids, s, skip).rest == []
              && ld.ParseDef(kids, s + ['}'], skip) == Ok(ld.ParseDef(kids, s, skip).value, ['}'])
  {
    hide Loader.ParseDef;
    assert s + [] == s;
    var d := ParseDefLocal(ld, [], s, [], ['}'], true);
    if ld.ParseDef(kids, s, skip).Ok? {
      DefExtent(ld, ld, kids, s, skip);
      d := ParseDefLocal(ld, kids, s, [], ['}'], skip);
    } else if ld.ParseDef(kids, s + ['}'], skip).Ok? {
      DefExtent(ld, ld, kids, s + ['}'], skip);
      d := ParseDefLocal(ld, kids, s, ['}'], [], skip);
    }
  }

  /** The definition inside braces, up to the closing one. */
  lemma BlockOfOne(ld: Loader, kids: seq<Node>, id: string, slot: Slot, s: string)
    requires OneDef(ld, s) && (slot.Existing? ==> slot.i < |kids|)
    ensures ld.Block(kids, id, slot, '{', s + ['}']) ==
            var sub := SlotKids(kids, slot);
            var d := ld.ParseDef(sub, s, slot.Skipped?);
            if d.Ok? then Ok(Store(kids, slot, id, Compound(d.value, SlotJoin(kids, slot))), [])
            else ld.Block(kids, id, slot, '{', s + ['}'])
    ensures ld.Block(kids, id, slot, '{', s + ['}']).Ok? ==> ld.ParseDef(SlotKids(kids, slot), s, slot.Skipped?).Ok?
  {
    hide Loader.ParseDef, Nonwhite, Store, SlotKids, SlotJoin, OneDef;
    var sub := SlotKids(kids, slot);
    OneDefStops(ld, sub, s, slot.Skipped?);
    StopNext(['}']);
    StopNext([]);
    if ld.ParseDef(sub, s, slot.Skipped?).Ok? {
      DefsOfOne(ld, sub, s + ['}'], slot.Skipped?, ['}']);
    } else {
      BlockFails(ld, kids, id, slot, s);
    }
  }

  lemma BlockFails(ld: Loader, kids: seq<Node>, id: string, slot: Slot, s: string)
    requires OneDef(ld, s) && (slot.Existing? ==> slot.i < |kids|)
    requires ld.ParseDef(SlotKids(kids, slot), s + ['}'], slot.Skipped?).Err?
    ensures ld.Block(kids, id, slot, '{', s + ['}']).Err?
  {
    hide Loader.ParseDef, Nonwhite, Store, SlotKids, SlotJoin;
    assert s + [] == s;
    var d := ParseDefLocal(ld, [], s, [], ['}'], true);
    DefStarts(ld, [], s + ['}'], true);
    var t := s + ['}'];
    HeadBack(ld, t);
    SameHeadSameDef(ld, SlotKids(kids, slot), t, slot.Skipped?);
  }

  lemma SameHeadSameDef(ld: Loader, kids: seq<Node>, t: string, skip: bool)
    ensures ld.ParseDef(kids, Back(Nonwhite(t)), skip) == ld.ParseDef(kids, t, skip)
  {
    hide Nonwhite, Loader.Define, Loader.Descend, Loader.Head;
    HeadBack(ld, t);
  }

  lemma HeadStarts(ld: Loader, t: string)
    requires ld.Head(t).Ok?
    ensures Nonwhite(t).Char? && Nonwhite(t).c != '}'
  {
    hide Nonwhite, GetString;
    if At(Nonwhite(t), '}') {
      StopString(Back(Nonwhite(t)), true);
    }
  }

  /** Loading a text that is one definition, or that fails in its first. */
  lemma LoadOne(ld: Loader, kids: seq<Node>, t: string)
    requires ld.Head(t).Ok?
    requires var d := ld.ParseDef(kids, t, false); d.Ok? ==> d.rest == []
    ensures ld.Load(kids, t) ==
            match ld.ParseDef(kids, t, false)
            case Ok(k, _) => Some(k)
            case Err(_, _) => None
  {
    hide Nonwhite, Loader.ParseDef, Loader.Head;
    HeadStarts(ld, t);
    SameHeadSameDef(ld, kids, t, false);
    StopNext([]);
    var d := ld.ParseDef(kids, t, false);
    if d.Ok? {
      assert ld.ParseDefs(d.value, [], false) == Ok(d.value, []);
      assert ld.ParseDefs(kids, t, false) == Ok(d.value, []);
    } else {
      assert ld.ParseDefs(kids, t, false).Err?;
    }
  }

  lemma DottedDef(ld: Loader, kids: seq<Node>, p: string, mode: Mode, id: string, s: string)
    requires IsKey(ld, p, mode, id)
    ensures ld.Head(p + ['.'] + s).Ok?
    ensures ld.ParseDef(kids, p + ['.'] + s, false) == ld.Descend(kids, id, mode, s, false)
  {
    hide Loader.Head, Loader.Descend, Loader.Define;
    var u := ['.'] + s;
    assert p + ['.'] + s == p + u && Separated(u, true);
    assert u[1..] == s && Nonwhite(u) == Char('.', s);
  }

  lemma BracedDef(ld: Loader, kids: seq<Node>, p: string, mode: Mode, id: string, s: string)
    requires IsKey(ld, p, mode, id)
    ensures ld.Head(p + ['{'] + s).Ok?
    ensures ld.ParseDef(kids, p + ['{'] + s, false) == ld.Body(kids, id, mode, Char('{', s), false)
  {
    hide Loader.Head, Loader.Descend, Loader.Body;
    var u := ['{'] + s;
    assert p + ['{'] + s == p + u && Separated(u, true);
    assert u[1..] == s && Nonwhite(u) == Char('{', s);
  }

  lemma StoreUpToJoin(kids: seq<Node>, slot: Slot, id: string, sub: seq<Node>, a: bool, b: bool)
    requires slot.Existing? ==> slot.i < |kids|
    ensures SameUpToJoin(Store(kids, slot, id, Compound(sub, a)), Store(kids, slot, id, Compound(sub, b)))
  {
  }

  /** What the dotted form does is what the braces do, and either fails when the other does. */
  lemma DescendIsBody(ld: Loader, kids: seq<Node>, id: string, mode: Mode, s: string)
    requires OneDef(ld, s)
    ensures var a, b := ld.Descend(kids, id, mode, s, false), ld.Body(kids, id, mode, Char('{', s + ['}']), false);
            && a.Ok? == b.Ok?
            && (a.Ok? ==> a.rest == [] && b.rest == [] && SameUpToJoin(a.value, b.value))
  {
    hide Loader.ParseDef, Loader.Block, Locate, Store, SlotKids, SlotJoin, OneDef, SameUpToJoin;
    var slot := Locate(kids, id, mode);
    BodyOf(ld, kids, id, mode, '{', s + ['}'], false);
    if !slot.Failed? && SlotOpens(kids, slot) {
      BlockOfOne(ld, kids, id, slot, s);
      var sub := SlotKids(kids, slot);
      OneDefStops(ld, sub, s, slot.Skipped?);
      var d := ld.ParseDef(sub, s, slot.Skipped?);
      if slot.Skipped? {
        SkippedDef(ld, kids, sub, s);
        SkippedStore(kids, id, Compound(d.value, SlotJoin(kids, slot)));
      } else if d.Ok? {
        StoreUpToJoin(kids, slot, id, d.value, true, SlotJoin(kids, slot));
      }
    }
  }

  lemma SkippedStore(kids: seq<Node>, id: string, v: Value)
    ensures Store(kids, Skipped, id, v) == kids && SameUpToJoin(kids, kids)
  {
  }

  lemma SkippedDef(ld: Loader, a: seq<Node>, b: seq<Node>, s: string)
    requires OneDef(ld, s)
    ensures ld.ParseDef(a, s, true) == Ok(a, []) && ld.ParseDef(b, s, true) == Ok(b, [])
  {
    hide Loader.ParseDef;
    SkipsAnywhere(ld, a, s);
    SkipsAnywhere(ld, b, s);
  }

  /** From any tree, `p.s` and `p { s }` both fail or give the same tree up to join flags. */
  lemma DottedIsBraced(ld: Loader, kids: seq<Node>, p: string, mode: Mode, id: string, s: string)
    requires IsKey(ld, p, mode, id) && OneDef(ld, s)
    ensures var a, b := ld.Load(kids, p + ['.'] + s), ld.Load(kids, p + ['{'] + (s + ['}']));
            && a.Some? == b.Some?
            && (a.Some? ==> SameUpToJoin(a.value, b.value))
  {
    hide Loader.Load, Loader.Head, Loader.ParseDef, Loader.Descend, Loader.Body, SameUpToJoin, OneDef, IsKey;
    DottedDef(ld, kids, p, mode, id, s);
    BracedDef(ld, kids, p, mode, id, s + ['}']);
    DescendIsBody(ld, kids, id, mode, s);
    LoadOne(ld, kids, p + ['.'] + s);
    LoadOne(ld, kids, p + ['{'] + (s + ['}']));
  }
}
