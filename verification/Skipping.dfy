/**
 Reading over definitions: the parser with `skip` set (conf.c:1263-1531).  No node is looked at, but for one thing:
 where the block of a definition does not close, parse_def deletes its variable n, whatever that holds.
 */
module Skipping {
  import opened Lexer
  import opened Tree
  import opened Parser
  import opened InputStream
  import opened LexerMachine

  /**
   What reading over a definition comes to.  Unclosed: its own block does not close, so that its n is deleted.  Wild:
   that happens in a definition inside it, which was entered with skip set, so that n has never been given a value.
   */
  datatype Over = Closed | Unclosed | Wild

  function OverDef(ld: Loader, t: string): Over
    decreases |t|, 1
  {
    match ld.Head(t)
    case Err(_, _) => Closed
    case Ok(_, r1) =>
      var n := Nonwhite(r1);
      if At(n, '.') then OverDef(ld, n.rest) else OverBody(ld, if At(n, '=') then Nonwhite(n.rest) else n)
  }

  function OverBody(ld: Loader, n: Next): Over
    decreases |Back(n)|, 1
  {
    if Opens(n) then OverBlock(ld, n.c, n.rest) else Closed
  }

  /** What is read over in a block or a list. */
  function OverRest(ld: Loader, open: char, t: string): Res<seq<Node>> {
    if open == '{' then ld.ParseDefs([], t, true) else ld.ParseArrayDefs([], t, 0, true)
  }

  function OverBlock(ld: Loader, open: char, t: string): Over
    decreases |t|, 3
  {
    if if open == '{' then WildDefs(ld, t) else WildItems(ld, t) then Wild
    else if At(Nonwhite(OverRest(ld, open, t).rest), Closing(open)) then Closed
    else Unclosed
  }

  predicate WildDefs(ld: Loader, t: string)
    decreases |t|, 2
  {
    var n := Nonwhite(t);
    && n.Char? && n.c != '}'
    && (!OverDef(ld, Back(n)).Closed? || (var r := ld.ParseDef([], Back(n), true); r.Ok? && WildDefs(ld, r.rest)))
  }

  predicate WildItems(ld: Loader, t: string)
    decreases |t|, 2
  {
    var n := Nonwhite(t);
    && n.Char? && n.c != ']'
    && (WildItem(ld, Back(n)) || (var r := ld.ParseArrayDef([], Back(n), 0, true); r.Ok? && WildItems(ld, r.rest)))
  }

  /** An item has an n of its own, which is NULL from the start. */
  predicate WildItem(ld: Loader, t: string)
    decreases |t|, 1
  {
    var n := Nonwhite(t);
    Opens(n) && if n.c == '{' then WildDefs(ld, n.rest) else WildItems(ld, n.rest)
  }

  // ----- what reading over means for the functions

  /** The same outcome with the children ks. */
  function WithKids(r: Res<seq<Node>>, ks: seq<Node>): Res<seq<Node>> {
    match r
    case Ok(_, rest) => Ok(ks, rest)
    case Err(e, rest) => Err(e, rest)
  }

  lemma BlockSkips(ld: Loader, ks: seq<Node>, id: string, open: char, t: string)
    ensures ld.Block(ks, id, Skipped, open, t) == WithKids(ld.Block([], id, Skipped, open, t), ks)
  {
    hide Loader.ParseDefs, Loader.ParseArrayDefs, Nonwhite, SkipSep;
  }

  lemma ScalarSkips(ld: Loader, ks: seq<Node>, id: string, t: string)
    ensures ld.ScalarDef(ks, id, Skipped, t) == WithKids(ld.ScalarDef([], id, Skipped, t), ks)
  {
    hide GetString, SkipSep;
  }

  lemma BodySkips(ld: Loader, ks: seq<Node>, id: string, mode: Mode, n: Next)
    ensures ld.Body(ks, id, mode, n, true) == WithKids(ld.Body([], id, mode, n, true), ks)
  {
    hide Loader.Block, Loader.ScalarDef, Locate;
    if Opens(n) {
      BlockSkips(ld, ks, id, n.c, n.rest);
    } else {
      ScalarSkips(ld, ks, id, Back(n));
    }
  }

  lemma {:induction false} DefSkips(ld: Loader, ks: seq<Node>, t: string)
    ensures ld.ParseDef(ks, t, true) == WithKids(ld.ParseDef([], t, true), ks)
    decreases |t|
  {
    hide Nonwhite, Loader.Body, Loader.Head;
    if ld.Head(t).Ok? {
      var (mode, id) := ld.Head(t).value;
      var n := Nonwhite(ld.Head(t).rest);
      if At(n, '.') {
        DefSkips(ld, ks, n.rest);
      } else {
        BodySkips(ld, ks, id, mode, n);
        if At(n, '=') {
          BodySkips(ld, ks, id, mode, Nonwhite(n.rest));
        }
      }
    }
  }

  // ----- what goes wild fails

  lemma {:induction false} WildFails(ld: Loader, t: string)
    ensures OverDef(ld, t) != Closed ==> ld.ParseDef([], t, true).Err?
    decreases |t|, 1
  {
    if ld.Head(t).Ok? {
      hide Nonwhite, Loader.Head, Loader.ScalarDef;
      var n := Nonwhite(ld.Head(t).rest);
      if At(n, '.') {
        WildFails(ld, n.rest);
      } else {
        var m := if At(n, '=') then Nonwhite(n.rest) else n;
        assert OverDef(ld, t) == OverBody(ld, m);
        if Opens(m) {
          var (mode, id) := ld.Head(t).value;
          WildBlockFails(ld, m.c, m.rest);
          assert ld.Body([], id, mode, m, true) == ld.Block([], id, Skipped, m.c, m.rest);
        }
      }
    }
  }

  lemma {:induction false} WildBlockFails(ld: Loader, open: char, t: string)
    ensures OverBlock(ld, open, t) != Closed ==> forall id :: ld.Block([], id, Skipped, open, t).Err?
    decreases |t|, 3
  {
    if open == '{' {
      WildDefsFail(ld, t);
    } else {
      WildItemsFail(ld, t, 0);
    }
  }

  lemma {:induction false} WildDefsFail(ld: Loader, t: string)
    ensures WildDefs(ld, t) ==> ld.ParseDefs([], t, true).Err?
    decreases |t|, 2
  {
    hide Nonwhite, Loader.ParseDef, OverDef;
    var n := Nonwhite(t);
    if n.Char? && n.c != '}' {
      WildFails(ld, Back(n));
      var r := ld.ParseDef([], Back(n), true);
      if r.Ok? {
        WildDefsFail(ld, r.rest);
      }
    }
  }

  lemma {:induction false} WildItemsFail(ld: Loader, t: string, idx: nat)
    ensures WildItems(ld, t) ==> ld.ParseArrayDefs([], t, idx, true).Err?
    decreases |t|, 2
  {
    hide Nonwhite, Loader.ParseArrayDef, WildItem;
    var n := Nonwhite(t);
    if n.Char? && n.c != ']' {
      WildItemFails(ld, Back(n), idx);
      var r := ld.ParseArrayDef([], Back(n), idx, true);
      if r.Ok? {
        WildItemsFail(ld, r.rest, r.value.1 + 1);
      }
    }
  }

  lemma {:induction false} WildItemFails(ld: Loader, t: string, idx: nat)
    ensures WildItem(ld, t) ==> ld.ParseArrayDef([], t, idx, true).Err?
    ensures SameEnd(ld.ParseArrayDef([], t, 0, true), ld.ParseArrayDef([], t, idx, true))
    decreases |t|, 1
  {
    hide Nonwhite, GetString, Loader.ParseDefs, Loader.ParseArrayDefs, Loader.Scalar;
    var n := Nonwhite(t);
    if Opens(n) {
      if n.c == '{' {
        WildDefsFail(ld, n.rest);
      } else {
        WildItemsFail(ld, n.rest, 0);
      }
    }
  }

  predicate SameEnd<T>(a: Res<T>, b: Res<T>) {
    a.Ok? == b.Ok? && a.rest == b.rest
  }

  /** A block that does not close is an unexpected character. */
  lemma {:induction false} UnclosedIs(ld: Loader, t: string)
    ensures OverDef(ld, t).Unclosed? ==> Unexpected(ld.ParseDef([], t, true))
    decreases |t|
  {
    hide Nonwhite, Loader.Head, Loader.Body, OverBody;
    if ld.Head(t).Ok? {
      var (mode, id) := ld.Head(t).value;
      var n := Nonwhite(ld.Head(t).rest);
      if At(n, '.') {
        UnclosedIs(ld, n.rest);
      } else if At(n, '=') && !Nonwhite(n.rest).Char? {
        NothingOpens(ld, Nonwhite(n.rest));
      } else {
        UnclosedBodyIs(ld, id, mode, if At(n, '=') then Nonwhite(n.rest) else n);
      }
    }
  }

  predicate Unexpected<T>(r: Res<T>) {
    r.Err? && r.error == UnexpectedChar
  }

  lemma NothingOpens(ld: Loader, n: Next)
    requires !n.Char?
    ensures OverBody(ld, n).Closed?
  {
  }

  lemma UnclosedBodyIs(ld: Loader, id: string, mode: Mode, n: Next)
    ensures OverBody(ld, n).Unclosed? ==> Unexpected(ld.Body([], id, mode, n, true))
  {
    hide Loader.Block, OverBlock, Loader.ScalarDef;
    if Opens(n) {
      UnclosedBlockIs(ld, id, n.c, n.rest);
      assert ld.Body([], id, mode, n, true) == ld.Block([], id, Skipped, n.c, n.rest);
    }
  }

  lemma UnclosedBlockIs(ld: Loader, id: string, open: char, t: string)
    ensures OverBlock(ld, open, t).Unclosed? ==> Unexpected(ld.Block([], id, Skipped, open, t))
  {
    hide Nonwhite, Loader.ParseDefs, Loader.ParseArrayDefs, WildDefs, WildItems, SkipSep;
  }

  // ----- the loops

  /** How a call of the parser ends; at UnsetRead it has come to a pointer that was never given a value. */
  datatype End = Whole | Refused(error: Error) | LeftOpen | UnsetRead

  /** The end that a result and what it comes to stand for. */
  function Ended<T>(over: Over, r: Res<T>): End {
    match over
    case Wild => UnsetRead
    case Unclosed => LeftOpen
    case Closed => if r.Ok? then Whole else Refused(r.error)
  }

  method ReadHead(ld: Loader, input: Input) returns (r: Outcome<(Mode, string)>)
    requires input.Valid()
    modifies input
    ensures input.Valid()
    ensures AsRes(r, input.Text()) == ld.Head(old(input.Text()))
  {
    var g := GetNonwhite(input);
    if g.GotEof? {
      return Fail(UnexpectedEof);
    } else if g.GotInclude? {
      return Fail(IncludeDirective);
    }
    var mode;
    if g.c == '+' {
      mode := MergeCreate;
    } else if g.c == '-' {
      mode := Merge;
    } else if g.c == '?' {
      mode := DontOverride;
    } else if g.c == '!' {
      mode := Override;
    } else {
      mode := ld.DefaultMode();
      input.UngetChar(g);
    }
    var s := ReadToken(input, true);
    match s {
      case Fail(e) => r := Fail(e);
      case Done(tok) => r := Done((mode, tok.text));
    }
  }

  method SkipSeparator(input: Input)
    requires input.Valid()
    modifies input
    ensures input.Valid()
    ensures input.Text() == SkipSep(old(input.Text()))
  {
    var g := GetNonwhite(input);
    if g != Got(';') && g != Got(',') {
      input.UngetChar(g);
    }
  }

  /** parse_def with skip set: the ids along the path are only read. */
  method SkipDef(ld: Loader, input: Input) returns (e: End)
    requires input.Valid()
    modifies input
    ensures input.Valid()
    ensures e == Ended(OverDef(ld, old(input.Text())), ld.ParseDef([], old(input.Text()), true))
    ensures !e.UnsetRead? ==> input.Text() == ld.ParseDef([], old(input.Text()), true).rest
    decreases |input.Text()|, 1
  {
    hide Loader.Body, Loader.Head, Nonwhite, OverBlock, Flatten;
    var g;
    ghost var id, mode;
    while true
      invariant input.Valid() && |input.Text()| <= |old(input.Text())|
      invariant ld.ParseDef([], old(input.Text()), true) == ld.ParseDef([], input.Text(), true)
      invariant OverDef(ld, old(input.Text())) == OverDef(ld, input.Text())
      decreases |input.Text()|
    {
      ghost var t := input.Text();
      var head := ReadHead(ld, input);
      if head.Fail? {
        return Refused(head.error);
      }
      mode, id := head.value.0, head.value.1;
      g := GetNonwhite(input);
      if g != Got('.') {
        assert ld.ParseDef([], t, true) == ld.Define([], id, mode, NextOf(g, input.Text()), true);
        break;
      }
    }
    if g == Got('=') {
      g := GetNonwhite(input);
      if !g.Got? {
        return Refused(if g.GotEof? then UnexpectedEof else IncludeDirective);
      }
    }
    e := SkipBody(ld, input, g, id, mode);
  }

  method SkipBody(ld: Loader, input: Input, g: Got, ghost id: string, ghost mode: Mode) returns (e: End)
    requires input.Valid() && !input.unget && (g.GotEof? ==> input.Text() == [])
    modifies input
    ensures input.Valid()
    ensures var n := NextOf(g, old(input.Text()));
            var want := ld.Body([], id, mode, n, true);
            e == Ended(OverBody(ld, n), want) && (!e.UnsetRead? ==> input.Text() == want.rest)
    decreases |Back(NextOf(g, input.Text()))|, 1
  {
    hide Loader.Block, OverBlock, Nonwhite, GetString, Flatten, SkipSep;
    if g != Got('{') && g != Got('[') {
      input.UngetChar(g);
      var s := ReadToken(input, false);
      if s.Fail? {
        return Refused(s.error);
      }
      SkipSeparator(input);
      return Whole;
    }
    e := SkipBlock(ld, input, g.c, id);
  }

  method SkipBlock(ld: Loader, input: Input, open: char, ghost id: string) returns (e: End)
    requires input.Valid() && (open == '{' || open == '[')
    modifies input
    ensures input.Valid()
    ensures var t := old(input.Text());
            var want := ld.Block([], id, Skipped, open, t);
            e == Ended(OverBlock(ld, open, t), want) && (!e.UnsetRead? ==> input.Text() == want.rest)
    decreases |input.Text()|, 3
  {
    hide Loader.ParseDefs, Loader.ParseArrayDefs, WildDefs, WildItems, Nonwhite, Flatten, SkipSep;
    if open == '{' {
      e := SkipDefs(ld, input);
    } else {
      e := SkipItems(ld, input);
    }
    if e.UnsetRead? {
      return;
    }
    var c := GetNonwhite(input);
    if c != Got(Closing(open)) {
      return LeftOpen;
    }
    SkipSeparator(input);
  }

  method SkipDefs(ld: Loader, input: Input) returns (e: End)
    requires input.Valid()
    modifies input
    ensures input.Valid()
    ensures var t := old(input.Text());
            e == Ended(if WildDefs(ld, t) then Wild else Closed, ld.ParseDefs([], t, true))
    ensures !e.UnsetRead? ==> input.Text() == ld.ParseDefs([], old(input.Text()), true).rest
    decreases |input.Text()|, 2
  {
    hide Loader.ParseDef, OverDef, Nonwhite, Flatten;
    while true
      invariant input.Valid() && |input.Text()| <= |old(input.Text())|
      invariant ld.ParseDefs([], old(input.Text()), true) == ld.ParseDefs([], input.Text(), true)
      invariant WildDefs(ld, old(input.Text())) == WildDefs(ld, input.Text())
      decreases |input.Text()|
    {
      var g := GetNonwhite(input);
      if g.GotEof? {
        return Whole;
      } else if g.GotInclude? {
        return Refused(IncludeDirective);
      }
      input.UngetChar(g);
      if g.c == '}' {
        return Whole;
      }
      e := SkipDef(ld, input);
      match e {
        case Whole =>
        case Refused(_) => return;
        case LeftOpen => return UnsetRead;
        case UnsetRead => return;
      }
    }
  }

  method SkipItems(ld: Loader, input: Input) returns (e: End)
    requires input.Valid()
    modifies input
    ensures input.Valid()
    ensures var t := old(input.Text());
            e == Ended(if WildItems(ld, t) then Wild else Closed, ld.ParseArrayDefs([], t, 0, true))
    ensures !e.UnsetRead? ==> input.Text() == ld.ParseArrayDefs([], old(input.Text()), 0, true).rest
    decreases |input.Text()|, 2
  {
    hide Loader.ParseArrayDef, WildItem, Nonwhite, Flatten;
    var idx := 0;
    while true
      invariant input.Valid() && |input.Text()| <= |old(input.Text())|
      invariant ld.ParseArrayDefs([], old(input.Text()), 0, true) == ld.ParseArrayDefs([], input.Text(), idx, true)
      invariant WildItems(ld, old(input.Text())) == WildItems(ld, input.Text())
      decreases |input.Text()|
    {
      var g := GetNonwhite(input);
      if g.GotEof? {
        return Refused(UnexpectedEof);
      } else if g.GotInclude? {
        return Refused(IncludeDirective);
      }
      input.UngetChar(g);
      if g.c == ']' {
        return Whole;
      }
      WildItemFails(ld, input.Text(), idx);
      e := SkipItem(ld, input, idx);
      if !e.Whole? {
        return;
      }
      idx := idx + 1;
    }
  }

  method SkipItem(ld: Loader, input: Input, ghost idx: nat) returns (e: End)
    requires input.Valid()
    modifies input
    ensures input.Valid()
    ensures var want := ld.ParseArrayDef([], old(input.Text()), idx, true);
            && e == Ended(if WildItem(ld, old(input.Text())) then Wild else Closed, want)
            && (!e.UnsetRead? ==> input.Text() == want.rest) && (want.Ok? ==> want.value == ([], idx))
    decreases |input.Text()|, 1
  {
    hide Loader.ParseDefs, Loader.ParseArrayDefs, WildDefs, WildItems, Nonwhite, GetString, Flatten;
    var g := GetNonwhite(input);
    if !g.Got? {
      return Refused(if g.GotEof? then UnexpectedEof else IncludeDirective);
    }
    if g.c != '{' && g.c != '[' {
      input.UngetChar(g);
      var s := ReadToken(input, false);
      return if s.Fail? then Refused(s.error) else Whole;
    }
    if g.c == '{' {
      e := SkipDefs(ld, input);
    } else {
      e := SkipItems(ld, input);
    }
    if !e.Whole? {
      return;
    }
    var c := GetNonwhite(input);
    if !c.Got? {
      return Refused(if c.GotEof? then UnexpectedEof else IncludeDirective);
    } else if c.c != Closing(g.c) {
      return Refused(UnexpectedChar);
    }
  }
}
