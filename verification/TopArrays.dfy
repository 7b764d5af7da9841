/** A top node that looks like an array is written without ids, and every one of unjoined children is lost. */
module TopArrays {
  import opened Numbers
  import opened Lexer
  import opened Tree
  import opened Parser
  import opened TokenPrinter
  import opened TokenRoundTrip
  import opened Printer
  import opened SavedForm
  import opened Graft
  import opened RoundTrip
  import opened Loading
  import opened Modes
  import opened Lists

  // ----- reading over definitions

  /** What follows the mode of a definition that is read over. */
  function SkipCore(ld: Loader, t: string): Option<string> {
    match GetString(t, true)
    case Err(_, _) => None
    case Ok(_, r) =>
      var n := Nonwhite(r);
      if At(n, '.') then SkipDef(ld, n.rest) else SkipValue(ld, n)
  }

  function SkipDef(ld: Loader, t: string): Option<string> {
    Extent(ld.ParseDef([], t, true))
  }

  function SkipValue(ld: Loader, n: Next): Option<string> {
    Extent(ld.Define([], [], MergeCreate, n, true))
  }

  /** How far a value reaches that is read over. */
  function Extent(r: Res<seq<Node>>): Option<string> {
    match r
    case Err(_, _) => None
    case Ok(_, rest) => Some(rest)
  }

  lemma BodyIgnores(ld: Loader, id: string, mode: Mode, n: Next)
    ensures Extent(ld.Body([], id, mode, n, true)) == Extent(ld.Body([], [], MergeCreate, n, true))
  {
    hide Nonwhite, GetString, Loader.ParseDefs, Loader.ParseArrayDefs, SkipSep, Locate;
    if Opens(n) {
      BlockIgnores(ld, id, n.c, n.rest);
    }
  }

  lemma BlockIgnores(ld: Loader, id: string, open: char, t: string)
    ensures Extent(ld.Block([], id, Skipped, open, t)) == Extent(ld.Block([], [], Skipped, open, t))
  {
    hide Nonwhite, Loader.ParseDefs, Loader.ParseArrayDefs, SkipSep;
  }

  lemma DefineIgnores(ld: Loader, id: string, mode: Mode, n: Next)
    ensures Extent(ld.Define([], id, mode, n, true)) == SkipValue(ld, n)
  {
    hide Nonwhite, Loader.Body;
    BodyIgnores(ld, id, mode, AfterEquals(n));
    DefineIsBody(ld, [], id, mode, n, true);
    DefineIsBody(ld, [], [], MergeCreate, n, true);
  }

  /** A definition is a mode, perhaps written, and the rest. */
  lemma DefIsCore(ld: Loader, t: string)
    requires SkipDef(ld, t).Some?
    ensures Nonwhite(t).Char?
    ensures var n := Nonwhite(t); SkipDef(ld, t) == SkipCore(ld, if IsModeChar(n.c) then n.rest else [n.c] + n.rest)
  {
    hide Nonwhite, GetString, Loader.Define, SkipValue, Loader.ParseDef;
    assert SkipDef(ld, t) == Extent(ld.ParseDef([], t, true));
    DefParts(ld, t);
    var (mode, id) := ld.Head(t).value;
    DefineIgnores(ld, id, mode, Nonwhite(ld.Head(t).rest));
  }

  lemma DefParts(ld: Loader, t: string)
    requires ld.ParseDef([], t, true).Ok?
    ensures ld.Head(t).Ok?
    ensures var (mode, id) := ld.Head(t).value;
            var n := Nonwhite(ld.Head(t).rest);
            ld.ParseDef([], t, true) == if At(n, '.') then ld.ParseDef([], n.rest, true) else ld.Define([], id, mode, n, true)
  {
    hide Nonwhite, GetString, Loader.Define;
  }

  lemma SameNextSameCore(ld: Loader, a: string, b: string)
    requires Nonwhite(a) == Nonwhite(b)
    ensures SkipCore(ld, a) == SkipCore(ld, b) && SkipDef(ld, a) == SkipDef(ld, b)
  {
    hide Nonwhite, DelimString, FreeString, Loader.Define, Loader.Descend;
    assert GetString(a, true) == GetString(b, true);
    assert ld.Head(a) == ld.Head(b);
  }

  // ----- words

  /** The characters of a free text that is not an id, dots included. */
  predicate FreeWord(s: string) {
    forall i :: 0 <= i < |s| ==> !EndsFreeString(s[i], false)
  }

  lemma {:induction false} FreeSplit(s: string, u: string) returns (b: string)
    requires FreeWord(s) && u != [] && IsBlank(u[0])
    ensures FreeString(s + u, true).1 == b + u && FreeWord(b) && |b| <= |s| && (b != [] ==> b[0] == '.')
    ensures s != [] && s[0] != '.' ==> |b| < |s|
  {
    if s == [] {
      assert s + u == u;
      b := [];
    } else {
      assert (s + u)[1..] == s[1..] + u;
      if s[0] == '.' {
        b := s;
      } else {
        b := FreeSplit(s[1..], u);
      }
    }
  }

  lemma StartsWord(s: string, u: string)
    requires FreeWord(s) && s != []
    ensures Nonwhite(s + u) == if s[0] == '<' then Include(s[1..] + u) else Char(s[0], s[1..] + u)
    ensures s[0] != '#' && !IsQuote(s[0]) && [s[0]] + (s[1..] + u) == s + u
  {
    assert (s + u)[1..] == s[1..] + u;
  }

  lemma CoreOfWord(ld: Loader, s: string, u: string) returns (b: string)
    requires FreeWord(s) && s != [] && u != [] && IsBlank(u[0]) && !At(Nonwhite(u), '.') && SkipCore(ld, s + u).Some?
    ensures FreeWord(b) && |b| < |s|
    ensures SkipCore(ld, s + u) == SkipValue(ld, Nonwhite(u)) || SkipCore(ld, s + u) == SkipDef(ld, b + u)
  {
    hide DelimString, SkipValue, SkipDef, Nonwhite;
    StartsWord(s, u);
    var c := FreeSplit(s, u);
    b := [];
    if c == [] {
      assert c + u == u;
    } else {
      StartsWord(c, u);
      b := c[1..];
    }
  }

  /** A word at the head of a definition: the value, or the next id, is behind it. */
  lemma {:induction false} WordHead(ld: Loader, s: string, u: string, core: bool)
    requires FreeWord(s) && u != [] && IsBlank(u[0]) && !At(Nonwhite(u), '.')
    ensures var r := if core then SkipCore(ld, s + u) else SkipDef(ld, s + u);
            r.Some? ==> r == SkipValue(ld, Nonwhite(u)) || r == SkipDef(ld, u) || r == SkipCore(ld, u)
    decreases |s|, !core
  {
    hide SkipCore, SkipDef, SkipValue, Nonwhite;
    if s == [] {
      assert s + u == u;
    } else if core {
      if SkipCore(ld, s + u).Some? {
        var b := CoreOfWord(ld, s, u);
        WordHead(ld, b, u, false);
      }
    } else if SkipDef(ld, s + u).Some? {
      DefIsCore(ld, s + u);
      StartsWord(s, u);
      if IsModeChar(s[0]) {
        WordHead(ld, s[1..], u, true);
      } else {
        WordHead(ld, s, u, true);
      }
    }
  }

  // ----- lines with one value each

  datatype Line = Word(s: string, gap: string) | Quote(text: string) | Block(text: string)

  function Text(l: Line): string {
    match l
    case Word(s, gap) => s + gap
    case Quote(x) => x
    case Block(x) => x
  }

  ghost predicate TokenText(x: string) {
    && x != [] && IsQuote(x[0])
    && forall t :: QuotedThen(x, t)
  }

  ghost predicate QuotedThen(x: string, t: string) {
    GetString(x + t, true).Ok? && Nonwhite(GetString(x + t, true).rest) == Nonwhite(t)
  }

  ghost predicate LineOk(ld: Loader, l: Line) {
    && (exists v :: StandsAlone(ld, Text(l), v))
    && match l
       case Word(s, gap) =>
         && s != [] && FreeWord(s) && s[0] != '.' && s[0] != '<' && gap != []
         && forall i :: 0 <= i < |gap| ==> IsBlank(gap[i])
       case Quote(x) => TokenText(x)
       case Block(x) => x != [] && (x[0] == '{' || x[0] == '[')
  }

  function Lines(ls: seq<Line>): string {
    if ls == [] then [] else Text(ls[0]) + Lines(ls[1..])
  }

  ghost predicate LinesOk(ld: Loader, ls: seq<Line>) {
    forall i :: 0 <= i < |ls| ==> LineOk(ld, ls[i])
  }

  lemma LineStarts(ld: Loader, l: Line, t: string)
    requires LineOk(ld, l)
    ensures var n := Nonwhite(Text(l) + t);
            n.Char? && n.c != '.' && n.c != '=' && n.c != ';' && n.c != ',' && n.c != '}' && n.c == Text(l)[0]
    ensures Clean(Text(l) + t)
  {
    hide StandsAlone, TokenText;
    match l
    case Word(s, gap) =>
      StartsWord(s, gap + t);
      assert s + gap + t == s + (gap + t);
    case Quote(x) =>
      hide Nonwhite;
      QuoteStarts(x, t);
    case Block(x) =>
      assert (x + t)[1..] == x[1..] + t;
  }

  lemma QuoteStarts(x: string, t: string)
    requires TokenText(x)
    ensures x != [] && IsQuote(x[0]) && Nonwhite(x + t) == Char(x[0], x[1..] + t)
  {
    hide DelimString;
    assert (x + t)[1..] == x[1..] + t;
  }

  lemma LinesStart(ld: Loader, ls: seq<Line>)
    requires LinesOk(ld, ls)
    ensures Clean(Lines(ls)) && !At(Nonwhite(Lines(ls)), '.') && !At(Nonwhite(Lines(ls)), '=')
    ensures ls != [] ==> Nonwhite(Lines(ls)).Char? && Nonwhite(Lines(ls)).c != '}'
    ensures ls == [] ==> Nonwhite(Lines(ls)) == Eof
  {
    if ls != [] {
      hide LineOk, Nonwhite;
      LineStarts(ld, ls[0], Lines(ls[1..]));
    }
  }

  /** A line where a value is expected. */
  lemma ValueThen(ld: Loader, x: string, v: Value, t: string)
    requires StandsAlone(ld, x, v) && Clean(t)
    ensures SkipValue(ld, Nonwhite(x + t)).Some? && Nonwhite(SkipValue(ld, Nonwhite(x + t)).value) == Nonwhite(t)
  {
    hide Nonwhite, Loader.Body;
    assert ReadIn(ld, x + t, v, t);
    var u :| Denotes(ld, Nonwhite(x + t), v, u) && Nonwhite(u) == Nonwhite(t);
    BodyRead(ld, [], [], MergeCreate, Nonwhite(x + t), v, u);
    BodyExtent(ld, ld, [], [], MergeCreate, Nonwhite(x + t), false);
    assert SkipsTo(ld.Body([], [], MergeCreate, Nonwhite(x + t), true), SkipSep(u));
    NonwhiteBack(t);
  }

  lemma NoValue(ld: Loader)
    ensures SkipValue(ld, Eof) == None && SkipDef(ld, []) == None && SkipCore(ld, []) == None
  {
  }

  ghost predicate UpTo(r: Option<string>, ls: seq<Line>, j: nat)
    requires j <= |ls|
  {
    r.Some? && Nonwhite(r.value) == Nonwhite(Lines(ls[j..]))
  }

  /** The value of a definition whose head ends with the first line is the second. */
  lemma SecondLine(ld: Loader, ls: seq<Line>)
    requires LinesOk(ld, ls) && ls != [] && SkipValue(ld, Nonwhite(Lines(ls[1..]))).Some?
    ensures |ls| >= 2 && UpTo(SkipValue(ld, Nonwhite(Lines(ls[1..]))), ls, 2)
  {
    hide Nonwhite, SkipValue, LineOk, StandsAlone;
    LinesStart(ld, ls[1..]);
    NoValue(ld);
    if |ls| >= 2 {
      var l := ls[1];
      assert LineOk(ld, l) && ls[1..][0] == l && ls[1..][1..] == ls[2..];
      assert LinesOk(ld, ls[2..]);
      LinesStart(ld, ls[2..]);
      var v := HasValue(ld, l);
      ValueThen(ld, Text(l), v, Lines(ls[2..]));
    }
  }

  lemma HasValue(ld: Loader, l: Line) returns (v: Value)
    requires LineOk(ld, l)
    ensures StandsAlone(ld, Text(l), v)
  {
    v :| StandsAlone(ld, Text(l), v);
  }

  lemma QuoteHead(ld: Loader, x: string, t: string)
    requires TokenText(x) && !At(Nonwhite(t), '.')
    ensures SkipCore(ld, x + t) == SkipValue(ld, Nonwhite(t))
    ensures SkipDef(ld, x + t).Some? ==> SkipDef(ld, x + t) == SkipValue(ld, Nonwhite(t))
  {
    hide GetString, SkipValue, SkipDef, Nonwhite;
    assert QuotedThen(x, t);
    QuoteStarts(x, t);
    assert [x[0]] + (x[1..] + t) == x + t;
    if SkipDef(ld, x + t).Some? {
      DefIsCore(ld, x + t);
    }
  }

  lemma BlockHead(ld: Loader, x: string, t: string)
    requires x != [] && (x[0] == '{' || x[0] == '[')
    ensures SkipCore(ld, x + t) == None && SkipDef(ld, x + t) == None
  {
    hide SkipDef;
    assert (x + t)[1..] == x[1..] + t && [x[0]] + (x[1..] + t) == x + t;
    assert GetString(x + t, true).Err?;
    if SkipDef(ld, x + t).Some? {
      DefIsCore(ld, x + t);
    }
  }

  lemma WordLine(ld: Loader, s: string, gap: string, more: string, core: bool)
    requires FreeWord(s) && gap != [] && (forall i :: 0 <= i < |gap| ==> IsBlank(gap[i])) && !At(Nonwhite(more), '.')
    ensures var r := if core then SkipCore(ld, s + gap + more) else SkipDef(ld, s + gap + more);
            r.Some? ==> r == SkipValue(ld, Nonwhite(more)) || r == SkipDef(ld, more) || r == SkipCore(ld, more)
  {
    hide SkipCore, SkipDef, SkipValue, Nonwhite;
    var u := gap + more;
    assert s + gap + more == s + u && u[0] == gap[0];
    NonwhiteSkipsBlanks(gap, more);
    WordHead(ld, s, u, core);
    SameNextSameCore(ld, u, more);
  }

  function SkipFrom(ld: Loader, t: string, core: bool): Option<string> {
    if core then SkipCore(ld, t) else SkipDef(ld, t)
  }

  /** Every definition made of such lines uses up two of them at least. */
  lemma {:induction false} UsesTwo(ld: Loader, ls: seq<Line>, core: bool) returns (j: nat)
    requires LinesOk(ld, ls) && SkipFrom(ld, Lines(ls), core).Some?
    ensures 2 <= j <= |ls| && UpTo(SkipFrom(ld, Lines(ls), core), ls, j)
    decreases |ls|
  {
    hide SkipCore, SkipDef, SkipValue, Nonwhite, StandsAlone, FreeWord, TokenText;
    NoValue(ld);
    assert ls != [];
    var l, more := ls[0], Lines(ls[1..]);
    assert LineOk(ld, l) && LinesOk(ld, ls[1..]);
    LinesStart(ld, ls[1..]);
    var r := SkipFrom(ld, Lines(ls), core);
    match l
    case Block(x) =>
      BlockHead(ld, x, more);
      assert false;
    case Quote(x) =>
      QuoteHead(ld, x, more);
      SecondLine(ld, ls);
      j := 2;
    case Word(s, gap) =>
      WordLine(ld, s, gap, more, core);
      if r == SkipValue(ld, Nonwhite(more)) {
        SecondLine(ld, ls);
        j := 2;
      } else {
        var core' := r != SkipDef(ld, more);
        j := UsesTwo(ld, ls[1..], core');
        assert ls[1..][j..] == ls[j + 1..];
        j := j + 1;
      }
  }

  /** So there are no more than half as many children as lines. */
  lemma {:induction false} AtMostHalf(ld: Loader, kids: seq<Node>, ls: seq<Line>)
    requires LinesOk(ld, ls) && ld.ParseDefs(kids, Lines(ls), false).Ok?
    ensures 2 * (|ld.ParseDefs(kids, Lines(ls), false).value| - |kids|) <= |ls|
    decreases |ls|
  {
    hide Nonwhite, Loader.ParseDef, Loader.Head, LinesOk, Locate, Store;
    LinesStart(ld, ls);
    if ls != [] {
      var t := Lines(ls);
      var d := ld.ParseDef(kids, Back(Nonwhite(t)), false);
      var j := DefUsesTwo(ld, kids, ls);
      var v := DefStores(ld, kids, Back(Nonwhite(t)));
      var (mode, id) := ld.Head(Back(Nonwhite(t))).value;
      StoreGrows(kids, id, mode, v);
      SameNextSameDefs(ld, d.value, d.rest, Lines(ls[j..]));
      TailOk(ld, ls, j);
      AtMostHalf(ld, d.value, ls[j..]);
    }
  }

  lemma TailOk(ld: Loader, ls: seq<Line>, j: nat)
    requires LinesOk(ld, ls) && j <= |ls|
    ensures LinesOk(ld, ls[j..])
  {
    hide LineOk;
  }

  lemma StoreGrows(kids: seq<Node>, id: string, mode: Mode, v: Value)
    ensures |Store(kids, Locate(kids, id, mode), id, v)| <= |kids| + 1
  {
  }

  lemma DefUsesTwo(ld: Loader, kids: seq<Node>, ls: seq<Line>) returns (j: nat)
    requires LinesOk(ld, ls) && ls != [] && ld.ParseDef(kids, Back(Nonwhite(Lines(ls))), false).Ok?
    ensures 2 <= j <= |ls|
    ensures Nonwhite(ld.ParseDef(kids, Back(Nonwhite(Lines(ls))), false).rest) == Nonwhite(Lines(ls[j..]))
  {
    hide Nonwhite, Loader.ParseDef, LinesOk;
    var t := Lines(ls);
    DefExtent(ld, ld, kids, Back(Nonwhite(t)), false);
    NonwhiteBack(t);
    SameNextSameCore(ld, Back(Nonwhite(t)), t);
    j := UsesTwo(ld, ls, false);
  }

  // ----- what the printer writes

  lemma PrintedLine(ld: Loader, w: Writer, v: Value) returns (l: Line)
    requires !ld.override && ValueOk(ld, w, v) && !Joined(v)
    ensures LineOk(ld, l) && Text(l) == w.SaveValue(v, 0) + ['\n']
  {
    PrintedIsValue(ld, w, v, 0);
    hide StandsAlone, TokenText;
    match v
    case Integer(i) => l := IntegerLine(ld, w, v, i);
    case Integer64(i) => l := IntegerLine(ld, w, v, i);
    case Real(r) => l := RealLine(ld, w, v);
    case Str(s) => l := StringLine(ld, w, v);
    case Compound(kids, _) =>
      l := Block(w.SaveValue(v, 0) + ['\n']);
      assert v == Compound(kids, false);
      BlockText(w, kids, 0, ['\n']);
      assert StandsAlone(ld, Text(l), Norm(v));
  }

  lemma IntegerLine(ld: Loader, w: Writer, v: Value, i: int) returns (l: Line)
    requires w.SaveValue(v, 0) == PrintInt(i) && StandsAlone(ld, w.SaveValue(v, 0) + ['\n'], Norm(v))
    ensures LineOk(ld, l) && Text(l) == w.SaveValue(v, 0) + ['\n']
  {
    hide StandsAlone;
    l := Word(PrintInt(i), ['\n']);
    assert StandsAlone(ld, Text(l), Norm(v));
    assert FreeWord(PrintInt(i));
  }

  lemma RealLine(ld: Loader, w: Writer, v: Value) returns (l: Line)
    requires v.Real? && RealOk(ld, w, v.r) && StandsAlone(ld, w.SaveValue(v, 0) + ['\n'], Norm(v))
    ensures LineOk(ld, l) && Text(l) == w.SaveValue(v, 0) + ['\n']
  {
    hide StandsAlone, SafeStrtoll;
    var (s, pad) := FreeString(w.formatReal(v.r), false);
    l := Word(s, pad + ['\n']);
    assert Text(l) == w.SaveValue(v, 0) + ['\n'];
    FreeStringStops(w.formatReal(v.r), false);
    assert FreeWord(s);
    assert StandsAlone(ld, Text(l), Norm(v));
  }

  lemma StringLine(ld: Loader, w: Writer, v: Value) returns (l: Line)
    requires v.Str? && Survives(v.s, false) && StandsAlone(ld, w.SaveValue(v, 0) + ['\n'], Norm(v))
    ensures LineOk(ld, l) && Text(l) == w.SaveValue(v, 0) + ['\n']
  {
    hide StandsAlone, GetString, Escape;
    var s := v.s;
    if Quoted(s, false) {
      l := Quote(StringPrint(s, false) + ['\n']);
      QuotedLine(s);
    } else {
      l := Word(s, ['\n']);
      UnquotedChars(s, false);
      assert !NeedsQuote(s[0]);
    }
    assert StandsAlone(ld, Text(l), Norm(v));
  }

  lemma QuotedLine(s: string)
    requires Survives(s, false) && Quoted(s, false)
    ensures TokenText(StringPrint(s, false) + ['\n'])
  {
    hide GetString;
    TokenStart(s, false);
    var p := StringPrint(s, false);
    assert (p + ['\n'])[0] == p[0];
    forall t
      ensures QuotedThen(p + ['\n'], t)
    {
      var u := ['\n'] + t;
      assert p + ['\n'] + t == p + u && Separated(u, false);
      TokenComesBack(s, false, u);
      QuotedEither(p, u);
      NonwhiteSkipsBlanks(['\n'], t);
    }
  }

  /** A quoted token is the same as an id and as a value. */
  lemma QuotedEither(p: string, u: string)
    requires p != [] && IsQuote(p[0])
    ensures GetString(p + u, true) == GetString(p + u, false)
  {
    hide DelimString;
  }

  lemma {:induction false} PrintedLines(ld: Loader, w: Writer, kids: seq<Node>) returns (ls: seq<Line>)
    requires !ld.override && forall k | k in kids :: ValueOk(ld, w, k.value) && !Joined(k.value)
    ensures LinesOk(ld, ls) && |ls| == |kids| && Lines(ls) == w.SaveChildren(kids, 0, [], true)
  {
    hide LineOk, ValueOk;
    ls := [];
    if kids != [] {
      assert kids[0] in kids;
      var l := PrintedLine(ld, w, kids[0].value);
      var rest := PrintedLines(ld, w, kids[1..]);
      ls := [l] + rest;
      assert ls[1..] == rest;
    }
  }

  /** Every top node that looks like an array of unjoined children is lost: fewer than it has come back, or nothing. */
  lemma TopArrayLost(ld: Loader, w: Writer, kids: seq<Node>)
    requires !ld.override && IsArray(kids) && forall k | k in kids :: ValueOk(ld, w, k.value) && !Joined(k.value)
    ensures var r := ld.Load([], w.Save(kids)); r.Some? ==> 2 * |r.value| <= |kids|
    ensures ld.Load([], w.Save(kids)) != Some(kids)
  {
    hide Loader.ParseDefs, ValueOk, IsArrayItem;
    var ls := PrintedLines(ld, w, kids);
    if ld.ParseDefs([], Lines(ls), false).Ok? {
      AtMostHalf(ld, [], ls);
    }
  }

  lemma {:induction false} SaveBoth(w: Writer, js: seq<Node>, us: seq<Node>)
    ensures w.SaveChildren(js + us, 0, [], true) == w.SaveChildren(js, 0, [], true) + w.SaveChildren(us, 0, [], true)
    decreases js
  {
    if js == [] {
      assert js + us == us;
    } else {
      assert (js + us)[1..] == js[1..] + us;
      SaveBoth(w, js[1..], us);
    }
  }

  lemma {:induction false} NoMoreThanBefore(ks: seq<Node>)
    ensures |NormKids(ks)| <= |ks|
  {
    if ks != [] {
      NoMoreThanBefore(ks[1..]);
    }
  }

  /** So is every array that has its joined children in front of others that are not joined. */
  lemma MixedTopArrayLost(ld: Loader, w: Writer, js: seq<Node>, us: seq<Node>)
    requires !ld.override && IsArray(js + us) && us != [] && KidsOk(ld, w, js)
    requires (forall k | k in js :: Joined(k.value))
    requires (forall k | k in us :: ValueOk(ld, w, k.value) && !Joined(k.value))
    ensures var r := ld.Load([], w.Save(js + us)); r.Some? ==> 2 * |r.value| <= 2 * |js| + |us|
    ensures ld.Load([], w.Save(js + us)) != Some(js + us)
  {
    hide Loader.ParseDefs, ValueOk, IsArrayItem, KidsOk, NormKids, LinesOk;
    var ls := PrintedLines(ld, w, us);
    SaveBoth(w, js, us);
    JoinedWritesIds(w, js);
    LinesStart(ld, ls);
    LoadChildren(ld, w, [], js, 0, [], Lines(ls));
    AddAllTop([], NormKids(js));
    assert [] + NormKids(js) == NormKids(js);
    NoMoreThanBefore(js);
    if ld.ParseDefs(NormKids(js), Lines(ls), false).Ok? {
      AtMostHalf(ld, NormKids(js), ls);
    }
  }
}
