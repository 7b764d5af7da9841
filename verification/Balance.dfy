/** A text that loads has as many opening as closing braces outside quotes and comments. */
module Balance {
  import opened Numbers
  import opened Lexer
  import opened Tree
  import opened Parser
  import opened Loading
  import opened Locality
  import opened Desugar

  /** Opening less closing braces, quoted texts and comments aside. */
  function Depth(s: string): int
    decreases |s|
  {
    if s == [] then 0
    else if s[0] == '#' then Depth(SkipComment(s[1..]))
    else if IsQuote(s[0]) then
      match DelimString(s[1..], s[0])
      case Ok(_, rest) => Depth(rest)
      case Err(_, _) => 0
    else (if s[0] == '{' then 1 else if s[0] == '}' then -1 else 0) + Depth(s[1..])
  }

  lemma {:induction false} NonwhiteDepth(t: string)
    ensures Depth(Back(Nonwhite(t))) == Depth(t)
    decreases |t|
  {
    if t != [] {
      if t[0] == '#' {
        NonwhiteDepth(SkipComment(t[1..]));
      } else if IsBlank(t[0]) {
        NonwhiteDepth(t[1..]);
      } else {
        assert t == [t[0]] + t[1..];
      }
    }
  }

  lemma CharDepth(c: char, t: string)
    requires c != '#' && !IsQuote(c)
    ensures Depth([c] + t) == Depth(t) + if c == '{' then 1 else if c == '}' then -1 else 0
  {
    assert ([c] + t)[1..] == t;
  }

  lemma {:induction false} FreeStringDepth(t: string, id: bool)
    ensures Depth(FreeString(t, id).1) == Depth(t)
  {
    if t != [] && !EndsFreeString(t[0], id) {
      FreeStringDepth(t[1..], id);
    }
  }

  lemma GetStringDepth(t: string, id: bool)
    requires GetString(t, id).Ok?
    ensures Depth(GetString(t, id).rest) == Depth(t)
  {
    hide Nonwhite, DelimString, FreeString, CString;
    NonwhiteDepth(t);
    NonwhiteStops(t);
    var b := Back(Nonwhite(t));
    if IsQuote(b[0]) {
      assert b[1..] == Nonwhite(t).rest;
    } else {
      FreeStringDepth(b, id);
    }
  }

  lemma HeadDepth(ld: Loader, t: string)
    requires ld.Head(t).Ok?
    ensures Depth(ld.Head(t).rest) == Depth(t)
  {
    hide Nonwhite, GetString, Depth;
    NonwhiteDepth(t);
    var n := Nonwhite(t);
    var (_, u) := ld.ReadMode(n.c, n.rest);
    GetStringDepth(u, true);
    if IsModeChar(n.c) {
      CharDepth(n.c, n.rest);
    }
  }

  lemma SkipSepDepth(t: string)
    ensures Depth(SkipSep(t)) == Depth(t)
  {
    hide Nonwhite, Depth;
    NonwhiteDepth(t);
    var n := Nonwhite(t);
    if n.Char? && (n.c == ';' || n.c == ',') {
      CharDepth(n.c, n.rest);
    }
  }

  /** One definition that is read over. */
  lemma {:induction false} DefDepth(ld: Loader, t: string)
    requires ld.ParseDef([], t, true).Ok?
    ensures Depth(ld.ParseDef([], t, true).rest) == Depth(t)
    decreases |t|, 1
  {
    hide Nonwhite, Depth, Loader.Head, Loader.Body;
    HeadDepth(ld, t);
    var (mode, id) := ld.Head(t).value;
    var n := Nonwhite(ld.Head(t).rest);
    NonwhiteDepth(ld.Head(t).rest);
    if At(n, '.') {
      CharDepth('.', n.rest);
      DefDepth(ld, n.rest);
    } else {
      DefineIsBody(ld, [], id, mode, n, true);
      if At(n, '=') {
        CharDepth('=', n.rest);
        NonwhiteDepth(n.rest);
      }
      BodyDepth(ld, id, mode, AfterEquals(n));
    }
  }

  lemma BodyDepth(ld: Loader, id: string, mode: Mode, n: Next)
    requires ld.Body([], id, mode, n, true).Ok?
    ensures Depth(ld.Body([], id, mode, n, true).rest) == Depth(Back(n))
    decreases |Back(n)|, 1
  {
    hide Nonwhite, Depth, GetString, SkipSep, Loader.ParseDefs, Loader.ParseArrayDefs;
    if Opens(n) {
      BlockDepth(ld, id, n.c, n.rest);
    } else {
      var g := GetString(Back(n), false);
      GetStringDepth(Back(n), false);
      SkipSepDepth(g.rest);
    }
  }

  lemma BlockDepth(ld: Loader, id: string, open: char, t: string)
    requires (open == '{' || open == '[') && ld.Block([], id, Skipped, open, t).Ok?
    ensures Depth(ld.Block([], id, Skipped, open, t).rest) == Depth([open] + t)
    decreases |t|, 3
  {
    hide Nonwhite, Depth, SkipSep, Loader.ParseDefs, Loader.ParseArrayDefs;
    var inner := if open == '{' then ld.ParseDefs([], t, true) else ld.ParseArrayDefs([], t, 0, true);
    if open == '{' {
      DefsDepth(ld, t);
    } else {
      ItemsDepth(ld, t, 0);
    }
    var e := Nonwhite(inner.rest);
    NonwhiteDepth(inner.rest);
    CharDepth(open, t);
    CharDepth(e.c, e.rest);
    SkipSepDepth(e.rest);
  }

  lemma {:induction false} DefsDepth(ld: Loader, t: string)
    requires ld.ParseDefs([], t, true).Ok?
    ensures Depth(ld.ParseDefs([], t, true).rest) == Depth(t)
    decreases |t|, 2
  {
    hide Nonwhite, Depth, Loader.ParseDef;
    var n := Nonwhite(t);
    NonwhiteDepth(t);
    if n.Char? && n.c != '}' {
      DefDepth(ld, Back(n));
      DefsDepth(ld, ld.ParseDef([], Back(n), true).rest);
    }
  }

  lemma {:induction false} ItemsDepth(ld: Loader, t: string, idx: nat)
    requires ld.ParseArrayDefs([], t, idx, true).Ok?
    ensures Depth(ld.ParseArrayDefs([], t, idx, true).rest) == Depth(t)
    decreases |t|, 2
  {
    hide Nonwhite, Depth, Loader.ParseArrayDef;
    var n := Nonwhite(t);
    NonwhiteDepth(t);
    if n.c != ']' {
      ItemDepth(ld, Back(n), idx);
      var item := ld.ParseArrayDef([], Back(n), idx, true);
      ItemsDepth(ld, item.rest, item.value.1 + 1);
    }
  }

  lemma ItemDepth(ld: Loader, t: string, idx: nat)
    requires ld.ParseArrayDef([], t, idx, true).Ok?
    ensures Depth(ld.ParseArrayDef([], t, idx, true).rest) == Depth(t)
    decreases |t|, 1
  {
    hide Nonwhite, Depth, GetString, Loader.ParseDefs, Loader.ParseArrayDefs;
    var n := Nonwhite(t);
    NonwhiteDepth(t);
    if Opens(n) {
      var inner := if n.c == '{' then ld.ParseDefs([], n.rest, true) else ld.ParseArrayDefs([], n.rest, 0, true);
      if n.c == '{' {
        DefsDepth(ld, n.rest);
      } else {
        ItemsDepth(ld, n.rest, 0);
      }
      var e := Nonwhite(inner.rest);
      NonwhiteDepth(inner.rest);
      CharDepth(n.c, n.rest);
      CharDepth(e.c, e.rest);
    } else {
      GetStringDepth(Back(n), false);
    }
  }

  /** Every text that loads is balanced. */
  lemma LoadsBalanced(ld: Loader, kids: seq<Node>, t: string)
    requires ld.Load(kids, t).Some?
    ensures Depth(t) == 0
  {
    hide Loader.ParseDefs, Depth;
    DefsExtent(ld, ld, kids, t, false);
    DefsDepth(ld, t);
    NothingDeep();
  }

  lemma NothingDeep()
    ensures Depth([]) == 0
  {
  }

  /** A brace in an open comment does not count. */
  lemma {:induction false} OpenSwallows(s: string)
    requires CommentOpen(s)
    ensures Depth(s + ['}']) == Depth(s)
    decreases |s|
  {
    var t := s + ['}'];
    assert t[1..] == s[1..] + ['}'] && t[0] == s[0];
    if s[0] == '#' {
      if '\n' !in s {
        NoNewline(s[1..]);
        NoNewline(t[1..]);
      } else {
        SkipBefore(s[1..], ['}']);
        OpenSwallows(SkipComment(s[1..]));
      }
    } else if IsQuote(s[0]) {
      var q := s[0];
      assert s[1..] + [] == s[1..];
      var d := DelimStringLocal(s[1..], [], ['}'], q);
      assert d + [] == d;
      OpenSwallows(d);
    } else {
      OpenSwallows(s[1..]);
    }
  }

  lemma {:induction false} NoNewline(s: string)
    requires '\n' !in s
    ensures SkipComment(s) == []
  {
    if s != [] {
      NoNewline(s[1..]);
    }
  }

  lemma {:induction false} SkipBefore(s: string, z: string)
    requires '\n' in s
    ensures SkipComment(s + z) == SkipComment(s) + z
  {
    assert (s + z)[1..] == s[1..] + z && s == [s[0]] + s[1..];
    if s[0] != '\n' {
      SkipBefore(s[1..], z);
    }
  }

  /** With a comment left open the braces cannot close: the braced form fails in every tree. */
  lemma OpenCommentFails(ld: Loader, kids: seq<Node>, p: string, mode: Mode, id: string, s: string)
    requires IsKey(ld, p, mode, id) && ld.ParseDef([], s, true) == Ok([], []) && CommentOpen(s)
    ensures ld.Load(kids, p + ['{'] + (s + ['}'])) == None
  {
    hide Depth, Loader.Load, Loader.ParseDef, CommentOpen, Loader.Head;
    var u := ['{'] + (s + ['}']);
    var t := p + ['{'] + (s + ['}']);
    assert t == p + u && Separated(u, true);
    HeadDepth(ld, p + u);
    CharDepth('{', s + ['}']);
    OpenSwallows(s);
    DefDepth(ld, s);
    NothingDeep();
    if ld.Load(kids, t).Some? {
      LoadsBalanced(ld, kids, t);
    }
  }
}
