/** Loading what snd_config_save wrote. */
module RoundTrip {
  import opened Numbers
  import opened Lexer
  import opened Tree
  import opened Parser
  import opened TokenPrinter
  import opened TokenRoundTrip
  import opened Printer
  import opened SavedForm
  import opened Graft

  // ----- reading one line

  lemma TokenStart(s: string, id: bool)
    requires Survives(s, id)
    ensures var p := StringPrint(s, id);
            && p != [] && !IsBlank(p[0]) && p[0] != '#' && p[0] != '<' && !IsPunctuation(p[0])
            && (Quoted(s, id) ==> IsQuote(p[0]))
            && (!Quoted(s, id) ==> p == s)
  {
    if !Quoted(s, id) {
      assert !NeedsQuote(s[0]) && Plain(s[0]);
    }
  }

  lemma NonwhiteAtToken(s: string, id: bool, t: string)
    requires Survives(s, id)
    ensures var p := StringPrint(s, id) + t;
            Nonwhite(p) == Char(p[0], p[1..]) && Back(Nonwhite(p)) == p
  {
    TokenStart(s, id);
    var p := StringPrint(s, id) + t;
    assert p == [p[0]] + p[1..];
  }

  lemma HeadOfToken(ld: Loader, p: string, tok: Token, u: string)
    requires p != [] && !IsModeChar(p[0])
    requires Nonwhite(p) == Char(p[0], p[1..]) && GetString(p, true) == Ok(tok, u)
    ensures ld.Head(p) == Ok((ld.DefaultMode(), tok.text), u)
  {
    assert [p[0]] + p[1..] == p;
  }

  /** The printed id of a definition. */
  lemma HeadOfId(ld: Loader, id: string, u: string)
    requires IdOk(id) && Separated(u, true)
    ensures ld.Head(StringPrint(id, true) + u) == Ok((ld.DefaultMode(), id), u)
  {
    NonwhiteAtToken(id, true, u);
    TokenStart(id, true);
    TokenComesBack(id, true, u);
    HeadOfToken(ld, StringPrint(id, true) + u, Token(id, Quoted(id, true)), u);
  }

  /** The value of a line is read into a new child behind any children that lack the id. */
  ghost predicate ReadsAs(ld: Loader, n: Next, k: Node, rest: string) {
    && n.Char? && n.c != '.' && n.c != '='
    && forall base | Find(base, k.id).None? ::
         ld.Body(base, k.id, MergeCreate, n, false) == Ok(base + [k], rest)
  }

  lemma DefineOf(ld: Loader, base: seq<Node>, t: string, id: string, r1: string)
    requires ld.Head(t) == Ok((ld.DefaultMode(), id), r1)
    requires Nonwhite(r1).Char? && Nonwhite(r1).c != '.' && Nonwhite(r1).c != '='
    ensures ld.ParseDef(base, t, false) == ld.Body(base, id, ld.DefaultMode(), Nonwhite(r1), false)
  {
  }

  lemma DescendOf(ld: Loader, base: seq<Node>, t: string, id: string, u: string)
    requires ld.Head(t) == Ok((ld.DefaultMode(), id), ['.'] + u)
    ensures ld.ParseDef(base, t, false) == ld.Descend(base, id, ld.DefaultMode(), u, false)
  {
    assert (['.'] + u)[1..] == u;
    assert Nonwhite(['.'] + u) == Char('.', u);
  }

  /** A dotted id whose remainder has been read inside the child. */
  lemma DescendInto(ld: Loader, base: seq<Node>, id: string, u: string, sub: seq<Node>, rest: string)
    requires !ld.override
    requires ld.ParseDef(SlotKids(base, Locate(base, id, MergeCreate)), u, false) == Ok(sub, rest)
    requires SlotOpens(base, Locate(base, id, MergeCreate))
    ensures ld.Descend(base, id, ld.DefaultMode(), u, false)
         == Ok(Store(base, Locate(base, id, MergeCreate), id, Compound(sub, true)), rest)
  {
  }

  lemma AddAtStep(base: seq<Node>, path: seq<string>, k: Node)
    requires path != [] && CanAdd(base, path, k.id)
    ensures var slot := Locate(base, path[0], MergeCreate);
            && CanAdd(SlotKids(base, slot), path[1..], k.id)
            && SlotOpens(base, slot)
            && AddAt(base, path, k)
               == Store(base, slot, path[0], Compound(AddAt(SlotKids(base, slot), path[1..], k), true))
  {
    if Find(base, path[0]).None? {
      assert forall id :: Find([], id) == None;
    }
  }

  lemma LineTop(ld: Loader, base: seq<Node>, k: Node, x: string, rest: string)
    requires !ld.override && Find(base, k.id).None? && IdOk(k.id)
    requires ReadsAs(ld, Nonwhite(x), k, rest)
    ensures ld.ParseDef(base, StringPrint(k.id, true) + ([' '] + x), false) == Ok(base + [k], rest)
  {
    HeadOfId(ld, k.id, [' '] + x);
    NonwhiteSkipsBlanks([' '], x);
    DefineOf(ld, base, StringPrint(k.id, true) + ([' '] + x), k.id, [' '] + x);
  }

  lemma LineDotted(ld: Loader, base: seq<Node>, id: string, t: string, sub: seq<Node>, rest: string)
    requires !ld.override && IdOk(id)
    requires SlotOpens(base, Locate(base, id, MergeCreate))
    requires ld.ParseDef(SlotKids(base, Locate(base, id, MergeCreate)), t, false) == Ok(sub, rest)
    ensures ld.ParseDef(base, StringPrint(id, true) + (['.'] + t), false)
         == Ok(Store(base, Locate(base, id, MergeCreate), id, Compound(sub, true)), rest)
  {
    HeadOfId(ld, id, ['.'] + t);
    DescendOf(ld, base, StringPrint(id, true) + (['.'] + t), id, t);
    DescendInto(ld, base, id, t, sub, rest);
  }

  lemma IdPrintStep(path: seq<string>, id: string, x: string)
    requires path != []
    ensures IdPrint(path, id) + [' '] + x
         == StringPrint(path[0], true) + (['.'] + (IdPrint(path[1..], id) + [' '] + x))
  {
  }

  /** One printed line is read into exactly the place it was printed from. */
  lemma {:induction false} LineOf(ld: Loader, base: seq<Node>, path: seq<string>, k: Node, x: string, rest: string)
    requires !ld.override && CanAdd(base, path, k.id)
    requires IdOk(k.id) && forall i :: 0 <= i < |path| ==> IdOk(path[i])
    requires ReadsAs(ld, Nonwhite(x), k, rest)
    ensures ld.ParseDef(base, IdPrint(path, k.id) + [' '] + x, false) == Ok(AddAt(base, path, k), rest)
    decreases |path|
  {
    if path == [] {
      assert IdPrint(path, k.id) + [' '] + x == StringPrint(k.id, true) + ([' '] + x);
      LineTop(ld, base, k, x, rest);
    } else {
      LineStep(ld, base, path, k, x, rest);
    }
  }

  lemma LineStep(ld: Loader, base: seq<Node>, path: seq<string>, k: Node, x: string, rest: string)
    requires !ld.override && path != [] && CanAdd(base, path, k.id)
    requires IdOk(k.id) && forall i :: 0 <= i < |path| ==> IdOk(path[i])
    requires ReadsAs(ld, Nonwhite(x), k, rest)
    ensures ld.ParseDef(base, IdPrint(path, k.id) + [' '] + x, false) == Ok(AddAt(base, path, k), rest)
    decreases |path|, 0
  {
    AddAtStep(base, path, k);
    IdPrintStep(path, k.id, x);
    var inside := SlotKids(base, Locate(base, path[0], MergeCreate));
    LineOf(ld, inside, path[1..], k, x, rest);
    LineDotted(ld, base, path[0], IdPrint(path[1..], k.id) + [' '] + x, AddAt(inside, path[1..], k), rest);
  }

  // ----- reading values

  /** Read from n on, the value is v and the text behind it is u. */
  ghost predicate Denotes(ld: Loader, n: Next, v: Value, u: string) {
    && n.Char? && n.c != '.' && n.c != '=' && n.c != ']' && n.c != '}'
    && if Opens(n) then
         && v.Compound? && !v.join
         && (if n.c == '{' then ld.ParseDefs([], n.rest, false) else ld.ParseArrayDefs([], n.rest, 0, false))
            == Ok(v.kids, [Closing(n.c)] + u)
       else
         var r := GetString(Back(n), false);
         r.Ok? && r.rest == u && ld.Scalar(r.value) == v
  }

  lemma ClosingFound(c: char, u: string)
    ensures Nonwhite([Closing(c)] + u) == Char(Closing(c), u)
  {
    assert ([Closing(c)] + u)[1..] == u;
  }

  lemma BodyOfDenoted(ld: Loader, base: seq<Node>, n: Next, k: Node, u: string)
    requires Denotes(ld, n, k.value, u) && Find(base, k.id).None?
    ensures ld.Body(base, k.id, MergeCreate, n, false) == Ok(base + [k], SkipSep(u))
  {
    if Opens(n) {
      ClosingFound(n.c, u);
    }
  }

  lemma DenotedReads(ld: Loader, n: Next, k: Node, u: string)
    requires Denotes(ld, n, k.value, u)
    ensures ReadsAs(ld, n, k, SkipSep(u))
  {
    forall base | Find(base, k.id).None?
      ensures ld.Body(base, k.id, MergeCreate, n, false) == Ok(base + [k], SkipSep(u))
    {
      BodyOfDenoted(ld, base, n, k, u);
    }
  }

  lemma ItemOfDenoted(ld: Loader, done: seq<Node>, n: Next, v: Value, u: string, j: nat)
    requires Denotes(ld, n, v, u) && Nonwhite(Back(n)) == n
    requires ld.ItemSlot(done, j) == (done, j)
    ensures ld.ParseArrayDef(done, Back(n), j, false) == Ok((done + [Node(Decimal(j), v)], j), u)
  {
    if Opens(n) {
      ClosingFound(n.c, u);
    }
  }

  lemma TokenDenotes(ld: Loader, x: string, tok: Token, v: Value, u: string)
    requires x != [] && Nonwhite(x) == Char(x[0], x[1..]) && !IsPunctuation(x[0])
    requires GetString(x, false) == Ok(tok, u) && ld.Scalar(tok) == v
    ensures Denotes(ld, Nonwhite(x), v, u)
  {
    assert [x[0]] + x[1..] == x;
  }

  lemma IntegerDenotes(ld: Loader, i: int, u: string)
    requires InLong(i) && Separated(u, false)
    ensures Denotes(ld, Nonwhite(PrintInt(i) + u), Number(i), u)
  {
    var s := PrintInt(i);
    FreeToken(s, false, u);
    SafeStrtollOfPrintInt(i);
    TokenDenotes(ld, s + u, Token(s, false), Number(i), u);
  }

  lemma StringDenotes(ld: Loader, s: string, u: string)
    requires Survives(s, false) && Separated(u, false)
    ensures Denotes(ld, Nonwhite(StringPrint(s, false) + u), Str(s), u)
  {
    NonwhiteAtToken(s, false, u);
    TokenStart(s, false);
    TokenComesBack(s, false, u);
    TokenDenotes(ld, StringPrint(s, false) + u, Token(s, Quoted(s, false)), Str(s), u);
  }

  lemma RealDenotes(ld: Loader, w: Writer, r: real, t: string) returns (u: string)
    requires RealOk(ld, w, r)
    ensures Denotes(ld, Nonwhite(w.formatReal(r) + (['\n'] + t)), Real(r), u)
    ensures Nonwhite(u) == Nonwhite(t)
  {
    hide FreeString, Nonwhite, GetString, SafeStrtoll;
    var (s, pad) := FreeString(w.formatReal(r), false);
    u := pad + (['\n'] + t);
    FreeStringStops(w.formatReal(r), false);
    FreeToken(s, false, u);
    assert w.formatReal(r) + (['\n'] + t) == s + u;
    TokenDenotes(ld, s + u, Token(s, false), Real(r), u);
    NonwhiteSkipsBlanks(pad, ['\n'] + t);
    NonwhiteSkipsBlanks(['\n'], t);
  }

  lemma FreeStringStops(t: string, id: bool)
    ensures forall i :: 0 <= i < |FreeString(t, id).0| ==> !EndsFreeString(FreeString(t, id).0[i], id)
  {
  }

  // ----- whole texts

  /** Nothing that could be taken for the separator of the definition before. */
  predicate Clean(t: string) {
    var n := Nonwhite(t);
    n.Char? ==> n.c != ';' && n.c != ','
  }

  lemma SameNextSameDefs(ld: Loader, kids: seq<Node>, a: string, b: string)
    requires Nonwhite(a) == Nonwhite(b)
    ensures ld.ParseDefs(kids, a, false) == ld.ParseDefs(kids, b, false)
  {
  }

  lemma SameNextSameItems(ld: Loader, kids: seq<Node>, a: string, b: string, idx: nat)
    requires Nonwhite(a) == Nonwhite(b)
    ensures ld.ParseArrayDefs(kids, a, idx, false) == ld.ParseArrayDefs(kids, b, idx, false)
  {
  }

  lemma IdPrintStart(path: seq<string>, id: string, t: string)
    requires IdOk(id) && forall i :: 0 <= i < |path| ==> IdOk(path[i])
    ensures var p := IdPrint(path, id) + t;
            && p != [] && Nonwhite(p) == Char(p[0], p[1..]) && Back(Nonwhite(p)) == p
            && p[0] != '}' && p[0] != ';' && p[0] != ','
  {
    var s := if path == [] then id else path[0];
    TokenStart(s, true);
    var p := IdPrint(path, id) + t;
    assert p[0] == StringPrint(s, true)[0];
    assert p == [p[0]] + p[1..];
  }

  /** One definition line and then the rest of the text. */
  lemma DefsOfLine(ld: Loader, base: seq<Node>, b: string, p: string, kids: seq<Node>, tail: string)
    requires forall i :: 0 <= i < |b| ==> IsBlank(b[i])
    requires Nonwhite(p).Char? && Nonwhite(p).c != '}' && Back(Nonwhite(p)) == p
    requires ld.ParseDef(base, p, false) == Ok(kids, Back(Nonwhite(tail)))
    ensures ld.ParseDefs(base, b + p, false) == ld.ParseDefs(kids, tail, false)
  {
    NonwhiteSkipsBlanks(b, p);
    NonwhiteBack(tail);
    SameNextSameDefs(ld, kids, Back(Nonwhite(tail)), tail);
  }

  lemma SaveChildrenStep(w: Writer, kids: seq<Node>, level: nat, path: seq<string>, inArray: bool, tail: string)
    requires kids != []
    ensures w.SaveChildren(kids, level, path, inArray) + tail
         == w.SaveChild(kids[0], level, path, inArray) + (w.SaveChildren(kids[1..], level, path, inArray) + tail)
  {
  }

  lemma SaveChildLine(w: Writer, k: Node, level: nat, path: seq<string>, more: string)
    requires !Joined(k.value)
    ensures w.SaveChild(k, level, path, false) + more
         == Tabs(level) + (IdPrint(path, k.id) + [' '] + (w.SaveValue(k.value, level) + (['\n'] + more)))
  {
  }

  /** A line that begins with a token, behind some indentation. */
  lemma IndentedStart(b: string, a: string, x: string)
    requires forall i :: 0 <= i < |b| ==> IsBlank(b[i])
    requires var p := a + ([' '] + x);
             && p != [] && Nonwhite(p) == Char(p[0], p[1..]) && Back(Nonwhite(p)) == p
             && p[0] != '}' && p[0] != ';' && p[0] != ','
    ensures var p := a + [' '] + x;
            && Nonwhite(b + p) == Nonwhite(p) && Nonwhite(p).Char? && Nonwhite(p).c != '}'
            && Back(Nonwhite(p)) == p && Clean(b + p)
  {
    assert a + [' '] + x == a + ([' '] + x);
    NonwhiteSkipsBlanks(b, a + [' '] + x);
  }

  lemma LineStart(b: string, path: seq<string>, id: string, x: string)
    requires IdOk(id) && forall i :: 0 <= i < |path| ==> IdOk(path[i])
    requires forall i :: 0 <= i < |b| ==> IsBlank(b[i])
    ensures var p := IdPrint(path, id) + [' '] + x;
            && Nonwhite(b + p) == Nonwhite(p) && Nonwhite(p).Char? && Nonwhite(p).c != '}'
            && Back(Nonwhite(p)) == p && Clean(b + p)
  {
    IdPrintStart(path, id, [' '] + x);
    IndentedStart(b, IdPrint(path, id), x);
  }

  lemma {:induction false} SavedStart(w: Writer, ld: Loader, kids: seq<Node>, level: nat, path: seq<string>,
                                      tail: string)
    requires KidsOk(ld, w, kids) && Clean(tail)
    requires forall i :: 0 <= i < |path| ==> IdOk(path[i])
    ensures Clean(w.SaveChildren(kids, level, path, false) + tail)
    decreases kids
  {
    if kids == [] {
      assert w.SaveChildren(kids, level, path, false) + tail == tail;
    } else {
      var k := kids[0];
      var more := w.SaveChildren(kids[1..], level, path, false) + tail;
      SaveChildrenStep(w, kids, level, path, false, tail);
      if Joined(k.value) {
        SavedStart(w, ld, kids[1..], level, path, tail);
        SavedStart(w, ld, k.value.kids, level, path + [k.id], more);
      } else {
        SaveChildLine(w, k, level, path, more);
        LineStart(Tabs(level), path, k.id, w.SaveValue(k.value, level) + (['\n'] + more));
      }
    }
  }

  /** The lines of some children, loaded at their path, add exactly those children. */
  lemma {:induction false} LoadChildren(ld: Loader, w: Writer, base: seq<Node>, kids: seq<Node>,
                                        level: nat, path: seq<string>, tail: string)
    requires !ld.override && KidsOk(ld, w, kids) && Clean(tail)
    requires forall i :: 0 <= i < |path| ==> IdOk(path[i])
    requires forall k | k in kids :: CanAdd(base, path, k.id)
    ensures ld.ParseDefs(base, w.SaveChildren(kids, level, path, false) + tail, false)
         == ld.ParseDefs(AddAllAt(base, path, NormKids(kids)), tail, false)
    decreases kids, 0
  {
    if kids == [] {
      assert w.SaveChildren(kids, level, path, false) + tail == tail;
    } else {
      var k := kids[0];
      var more := w.SaveChildren(kids[1..], level, path, false) + tail;
      SaveChildrenStep(w, kids, level, path, false, tail);
      SavedStart(w, ld, kids[1..], level, path, tail);
      LoadChild(ld, w, base, k, level, path, more);
      var base1 := AddAllAt(base, path, NormChild(k));
      forall c | c in kids[1..]
        ensures CanAdd(base1, path, c.id)
      {
        if NormChild(k) != [] {
          CanAddAfter(base, path, NormChild(k)[0], c.id);
        }
      }
      LoadChildren(ld, w, base1, kids[1..], level, path, tail);
      AddAllConcat(base, path, NormChild(k), NormKids(kids[1..]));
    }
  }

  lemma LoadChild(ld: Loader, w: Writer, base: seq<Node>, k: Node, level: nat, path: seq<string>, more: string)
    requires !ld.override && IdOk(k.id) && ValueOk(ld, w, k.value) && Clean(more)
    requires forall i :: 0 <= i < |path| ==> IdOk(path[i])
    requires CanAdd(base, path, k.id)
    ensures ld.ParseDefs(base, w.SaveChild(k, level, path, false) + more, false)
         == ld.ParseDefs(AddAllAt(base, path, NormChild(k)), more, false)
    decreases k, 0
  {
    if Joined(k.value) {
      forall c | c in k.value.kids
        ensures CanAdd(base, path + [k.id], c.id)
      {
        AddAtFirst(base, path, k.id, c);
      }
      LoadChildren(ld, w, base, k.value.kids, level, path + [k.id], more);
      NormKidsDistinct(k.value.kids);
      if NormKids(k.value.kids) != [] {
        AddAllJoined(base, path, NormChild(k)[0]);
      }
    } else {
      var u := LoadValue(ld, w, k.value, level, more);
      SaveChildLine(w, k, level, path, more);
      LoadLine(ld, base, Tabs(level), Node(k.id, Norm(k.value)), path, w.SaveValue(k.value, level) + (['\n'] + more),
               u, more);
    }
  }

  lemma LoadLine(ld: Loader, base: seq<Node>, b: string, k: Node, path: seq<string>, x: string, u: string, more: string)
    requires !ld.override && IdOk(k.id) && Clean(more) && CanAdd(base, path, k.id)
    requires forall i :: 0 <= i < |path| ==> IdOk(path[i])
    requires forall i :: 0 <= i < |b| ==> IsBlank(b[i])
    requires Denotes(ld, Nonwhite(x), k.value, u) && Nonwhite(u) == Nonwhite(more)
    ensures ld.ParseDefs(base, b + (IdPrint(path, k.id) + [' '] + x), false)
         == ld.ParseDefs(AddAt(base, path, k), more, false)
  {
    DenotedReads(ld, Nonwhite(x), k, u);
    LineOf(ld, base, path, k, x, SkipSep(u));
    LineStart(b, path, k.id, x);
    DefsOfLine(ld, base, b, IdPrint(path, k.id) + [' '] + x, AddAt(base, path, k), more);
  }

  /** The text of a value denotes it. */
  lemma LoadValue(ld: Loader, w: Writer, v: Value, level: nat, tail: string) returns (u: string)
    requires !ld.override && ValueOk(ld, w, v) && !Joined(v)
    ensures Denotes(ld, Nonwhite(w.SaveValue(v, level) + (['\n'] + tail)), Norm(v), u)
    ensures Nonwhite(u) == Nonwhite(tail)
    decreases v, 0
  {
    u := ['\n'] + tail;
    NonwhiteSkipsBlanks(['\n'], tail);
    match v
    case Integer(i) => IntegerDenotes(ld, i, u);
    case Integer64(i) => IntegerDenotes(ld, i, u);
    case Real(r) => u := RealDenotes(ld, w, r, tail);
    case Str(s) => StringDenotes(ld, s, u);
    case Compound(kids, _) =>
      if IsArray(kids) {
        LoadArray(ld, w, kids, level, u);
      } else {
        LoadBlock(ld, w, kids, level, u);
      }
  }

  lemma Reassociate(open: char, body: string, close: string, end: char, u: string)
    ensures [open, '\n'] + body + close + [end] + u == [open] + (['\n'] + (body + (close + ([end] + u))))
  {
  }

  lemma BlockText(w: Writer, kids: seq<Node>, level: nat, u: string)
    ensures var a := IsArray(kids);
            w.SaveValue(Compound(kids, false), level) + u
            == [if a then '[' else '{'] +
               (['\n'] + (w.SaveChildren(kids, level + 1, [], a) + (Tabs(level) + ([if a then ']' else '}'] + u))))
  {
    var a := IsArray(kids);
    Reassociate(if a then '[' else '{', w.SaveChildren(kids, level + 1, [], a), Tabs(level), if a then ']' else '}', u);
  }

  /** A block is what its lines are, opened and closed. */
  lemma BlockDenotes(ld: Loader, open: char, lines: string, kids: seq<Node>, u: string)
    requires open == '{' || open == '['
    requires (if open == '{' then ld.ParseDefs([], lines, false) else ld.ParseArrayDefs([], lines, 0, false))
          == Ok(kids, [Closing(open)] + u)
    ensures Denotes(ld, Nonwhite([open] + (['\n'] + lines)), Compound(kids, false), u)
  {
    var x := [open] + (['\n'] + lines);
    assert x[1..] == ['\n'] + lines;
    NonwhiteSkipsBlanks(['\n'], lines);
    if open == '{' {
      SameNextSameDefs(ld, [], ['\n'] + lines, lines);
    } else {
      SameNextSameItems(ld, [], ['\n'] + lines, lines, 0);
    }
  }

  /** At its closing character a block is complete. */
  lemma BlockCloses(ld: Loader, kids: seq<Node>, b: string, open: char, u: string, idx: nat)
    requires open == '{' || open == '['
    requires forall i :: 0 <= i < |b| ==> IsBlank(b[i])
    ensures (if open == '{' then ld.ParseDefs(kids, b + ([Closing(open)] + u), false)
             else ld.ParseArrayDefs(kids, b + ([Closing(open)] + u), idx, false))
         == Ok(kids, [Closing(open)] + u)
    ensures Clean(b + ([Closing(open)] + u))
  {
    NonwhiteSkipsBlanks(b, [Closing(open)] + u);
    ClosingFound(open, u);
  }

  lemma LoadBlock(ld: Loader, w: Writer, kids: seq<Node>, level: nat, u: string)
    requires !ld.override && KidsOk(ld, w, kids) && !IsArray(kids)
    ensures Denotes(ld, Nonwhite(w.SaveValue(Compound(kids, false), level) + u), Compound(NormKids(kids), false), u)
    decreases kids, 1
  {
    var close := Tabs(level) + (['}'] + u);
    BlockText(w, kids, level, u);
    BlockCloses(ld, NormKids(kids), Tabs(level), '{', u, 0);
    LoadChildren(ld, w, [], kids, level + 1, [], close);
    AddAllTop([], NormKids(kids));
    assert [] + NormKids(kids) == NormKids(kids);
    BlockDenotes(ld, '{', w.SaveChildren(kids, level + 1, [], false) + close, NormKids(kids), u);
  }

  lemma LoadArray(ld: Loader, w: Writer, kids: seq<Node>, level: nat, u: string)
    requires !ld.override && ValueOk(ld, w, Compound(kids, false)) && IsArray(kids)
    ensures Denotes(ld, Nonwhite(w.SaveValue(Compound(kids, false), level) + u), Compound(NormItems(kids, 0), false), u)
    decreases kids, 1
  {
    var close := Tabs(level) + ([']'] + u);
    BlockText(w, kids, level, u);
    hide Loader.ParseArrayDefs, NormItems, IsArrayItem;
    var items := NormItems(kids, 0);
    BlockCloses(ld, items, Tabs(level), '[', u, |kids|);
    LoadItems(ld, w, [], kids, level + 1, close);
    assert [] + items == items;
    BlockDenotes(ld, '[', w.SaveChildren(kids, level + 1, [], true) + close, items, u);
  }

  predicate Numbered(done: seq<Node>) {
    forall i :: 0 <= i < |done| ==> done[i].id == Decimal(i)
  }

  lemma FreshIndex(done: seq<Node>)
    requires Numbered(done)
    ensures NextFree(Ids(done), |done|) == |done|
  {
    if Decimal(|done|) in Ids(done) {
      var i :| 0 <= i < |done| && done[i].id == Decimal(|done|);
      DecimalInjective(i, |done|);
    }
  }

  lemma ItemStep(ld: Loader, done: seq<Node>, b: string, x: string, v: Value, u: string, more: string)
    requires !ld.override && Numbered(done)
    requires forall i :: 0 <= i < |b| ==> IsBlank(b[i])
    requires Denotes(ld, Nonwhite(x), v, u) && Nonwhite(u) == Nonwhite(more)
    ensures ld.ParseArrayDefs(done, b + x, |done|, false)
         == ld.ParseArrayDefs(done + [Node(Decimal(|done|), v)], more, |done| + 1, false)
  {
    NonwhiteSkipsBlanks(b, x);
    NonwhiteBack(x);
    FreshIndex(done);
    ItemOfDenoted(ld, done, Nonwhite(x), v, u, |done|);
    SameNextSameItems(ld, done + [Node(Decimal(|done|), v)], u, more, |done| + 1);
  }

  lemma SaveItemLine(w: Writer, k: Node, level: nat, more: string)
    requires !Joined(k.value)
    ensures w.SaveChild(k, level, [], true) + more == Tabs(level) + (w.SaveValue(k.value, level) + (['\n'] + more))
  {
  }

  lemma LoadItem(ld: Loader, w: Writer, done: seq<Node>, k: Node, level: nat, more: string)
    requires !ld.override && ValueOk(ld, w, k.value) && !Joined(k.value) && Numbered(done)
    ensures ld.ParseArrayDefs(done, w.SaveChild(k, level, [], true) + more, |done|, false)
         == ld.ParseArrayDefs(done + [Node(Decimal(|done|), Norm(k.value))], more, |done| + 1, false)
    decreases k, 0
  {
    SaveItemLine(w, k, level, more);
    var u := LoadValue(ld, w, k.value, level, more);
    ItemStep(ld, done, Tabs(level), w.SaveValue(k.value, level) + (['\n'] + more), Norm(k.value), u, more);
  }

  lemma NumberedAppend(done: seq<Node>, v: Value)
    requires Numbered(done)
    ensures Numbered(done + [Node(Decimal(|done|), v)])
  {
    hide Decimal;
    var more := done + [Node(Decimal(|done|), v)];
    forall i | 0 <= i < |more|
      ensures more[i].id == Decimal(i)
    {
      if i < |done| {
        assert more[i] == done[i];
      }
    }
  }

  lemma NormItemsStep(done: seq<Node>, items: seq<Node>, idx: nat)
    requires items != []
    ensures done + NormItems(items, idx)
         == done + [Node(Decimal(idx), Norm(items[0].value))] + NormItems(items[1..], idx + 1)
  {
  }

  /** The items of an array, numbered on from those already there. */
  lemma {:induction false} LoadItems(ld: Loader, w: Writer, done: seq<Node>, items: seq<Node>, level: nat, tail: string)
    requires !ld.override && Numbered(done)
    requires forall k | k in items :: ValueOk(ld, w, k.value) && !Joined(k.value)
    ensures ld.ParseArrayDefs(done, w.SaveChildren(items, level, [], true) + tail, |done|, false)
         == ld.ParseArrayDefs(done + NormItems(items, |done|), tail, |done| + |items|, false)
    decreases items, 0
  {
    hide Loader.ParseArrayDefs;
    hide Norm;
    hide Decimal;
    if items == [] {
      assert w.SaveChildren(items, level, [], true) + tail == tail;
      assert done + NormItems(items, |done|) == done;
    } else {
      var done1 := done + [Node(Decimal(|done|), Norm(items[0].value))];
      SaveChildrenStep(w, items, level, [], true, tail);
      NumberedAppend(done, Norm(items[0].value));
      NormItemsStep(done, items, |done|);
      LoadItem(ld, w, done, items[0], level, w.SaveChildren(items[1..], level, [], true) + tail);
      LoadItems(ld, w, done1, items[1..], level, tail);
    }
  }

  /** A top node that looks like an array is written without the ids of its children, except of joined ones. */
  predicate TopOk(kids: seq<Node>) {
    IsArray(kids) ==> forall k | k in kids :: Joined(k.value)
  }

  lemma {:induction false} JoinedWritesIds(w: Writer, kids: seq<Node>)
    requires forall k | k in kids :: Joined(k.value)
    ensures w.SaveChildren(kids, 0, [], true) == w.SaveChildren(kids, 0, [], false)
  {
    if kids != [] {
      assert kids[0] in kids;
      JoinedWritesIds(w, kids[1..]);
    }
  }

  /** Saving a tree and loading the text into a fresh top node gives its normal form. */
  lemma SaveThenLoad(ld: Loader, w: Writer, kids: seq<Node>)
    requires !ld.override && KidsOk(ld, w, kids) && TopOk(kids)
    ensures ld.Load([], w.Save(kids)) == Some(NormKids(kids))
  {
    if IsArray(kids) {
      JoinedWritesIds(w, kids);
    }
    var text := w.SaveChildren(kids, 0, [], false);
    LoadChildren(ld, w, [], kids, 0, [], []);
    assert text + [] == text;
    AddAllTop([], NormKids(kids));
    assert [] + NormKids(kids) == NormKids(kids);
  }

  /** So the very same tree comes back exactly when it is canonical. */
  lemma RoundTripIffCanonical(ld: Loader, w: Writer, kids: seq<Node>)
    requires !ld.override && KidsOk(ld, w, kids) && TopOk(kids)
    ensures ld.Load([], w.Save(kids)) == Some(kids) <==> CanonicalKids(kids)
  {
    SaveThenLoad(ld, w, kids);
    forall k | k in kids
      ensures WellJoined(k.value)
    {
      OkWellJoined(ld, w, k.value);
    }
    NormKidsIdentity(kids);
  }

  lemma OkWellJoined(ld: Loader, w: Writer, v: Value)
    requires ValueOk(ld, w, v)
    ensures WellJoined(v)
  {
  }
}
