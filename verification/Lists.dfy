/**
 Lists in brackets: `a [ v0 v1 ]` is `a.0 v0` and `a.1 v1`, whatever the texts of the values, and takes no
 separators.
 */
module Lists {
  import opened Numbers
  import opened Lexer
  import opened Tree
  import opened Parser
  import opened TokenPrinter
  import opened TokenRoundTrip
  import opened Printer
  import opened SavedForm
  import opened Graft
  import opened RoundTrip
  import opened Loading
  import opened Desugar

  // ----- texts of values

  /** The text, blanks behind it included, is read as v in front of t. */
  ghost predicate ReadIn(ld: Loader, s: string, v: Value, t: string) {
    exists u :: Denotes(ld, Nonwhite(s), v, u) && Nonwhite(u) == Nonwhite(t)
  }

  /** The text is one of v, in front of all that can follow a word. */
  ghost predicate IsValue(ld: Loader, x: string, v: Value) {
    forall t | Separated(t, false) :: ReadIn(ld, x + t, v, t)
  }

  /** The text is one of v whatever follows it: it is quoted or in brackets, or a blank stands at its end. */
  ghost predicate StandsAlone(ld: Loader, x: string, v: Value) {
    forall t :: ReadIn(ld, x + t, v, t)
  }

  /** A word: numbers in any base, reals and strings. */
  lemma WordIsValue(ld: Loader, s: string)
    requires s != [] && NUL !in s && s[0] != '<' && !IsPunctuation(s[0])
    requires forall i :: 0 <= i < |s| ==> !EndsFreeString(s[i], false)
    ensures IsValue(ld, s, ld.Scalar(Token(s, false)))
  {
    hide Loader.Scalar, Nonwhite, GetString;
    var v := ld.Scalar(Token(s, false));
    forall t | Separated(t, false)
      ensures ReadIn(ld, s + t, v, t)
    {
      FreeToken(s, false, t);
      TokenDenotes(ld, s + t, Token(s, false), v, t);
      assert Denotes(ld, Nonwhite(s + t), v, t);
    }
  }

  predicate Blanks(b: string) {
    forall i :: 0 <= i < |b| ==> IsBlank(b[i])
  }

  /** Blanks around the text of a value change nothing, and behind it they let anything follow. */
  lemma BlanksAround(ld: Loader, a: string, x: string, v: Value, b: string)
    requires IsValue(ld, x, v) && Blanks(a) && Blanks(b)
    ensures IsValue(ld, a + x + b, v) && (b != [] ==> StandsAlone(ld, a + x + b, v))
  {
    hide Denotes, Nonwhite;
    forall t | Separated(t, false) || b != []
      ensures ReadIn(ld, a + x + b + t, v, t)
    {
      var u := b + t;
      assert a + x + b + t == a + (x + u) && Separated(u, false);
      NonwhiteSkipsBlanks(a, x + u);
      NonwhiteSkipsBlanks(b, t);
      assert ReadIn(ld, x + u, v, u);
    }
  }

  /** A quoted text, in either kind of quotes, whatever it holds. */
  lemma QuotedIsValue(ld: Loader, q: char, body: string, s: string)
    requires IsQuote(q) && forall t :: DelimString(body + t, q) == Ok(s, t)
    ensures StandsAlone(ld, [q] + body, Str(CString(s)))
  {
    hide DelimString;
    forall t
      ensures ReadIn(ld, [q] + body + t, Str(CString(s)), t)
    {
      var x := [q] + (body + t);
      assert [q] + body + t == x && x[1..] == body + t;
      QuotedToken(q, body + t, false);
      assert Nonwhite(x) == Char(x[0], x[1..]);
      TokenDenotes(ld, x, Token(CString(s), true), Str(CString(s)), t);
      assert Denotes(ld, Nonwhite([q] + body + t), Str(CString(s)), t);
    }
  }

  /** What the printer writes for a value, with its newline. */
  lemma PrintedIsValue(ld: Loader, w: Writer, v: Value, level: nat)
    requires !ld.override && ValueOk(ld, w, v) && !Joined(v)
    ensures StandsAlone(ld, w.SaveValue(v, level) + ['\n'], Norm(v))
  {
    hide ValueOk, Denotes, Norm, Writer.SaveValue, Nonwhite;
    forall t
      ensures ReadIn(ld, w.SaveValue(v, level) + ['\n'] + t, Norm(v), t)
    {
      assert w.SaveValue(v, level) + ['\n'] + t == w.SaveValue(v, level) + (['\n'] + t);
      var u := LoadValue(ld, w, v, level, t);
    }
  }

  // ----- one item, one line

  lemma NextIndex(ld: Loader, done: seq<Node>)
    requires Numbered(done)
    ensures ld.ItemSlot(done, |done|) == (done, |done|)
    ensures Find(done, Decimal(|done|)).None?
  {
    FreshIndex(done);
    NextFreeIsFree(Ids(done), Ids(done), |done|);
    forall i | 0 <= i < |done|
      ensures done[i].id != Decimal(|done|)
    {
      assert done[i] in done;
    }
  }

  function Item(i: nat, v: Value): Node {
    Node(Decimal(i), v)
  }

  /** An item in front of more. */
  lemma ItemThen(ld: Loader, done: seq<Node>, x: string, v: Value, t: string)
    requires Numbered(done) && (StandsAlone(ld, x, v) || (IsValue(ld, x, v) && Separated(t, false)))
    ensures ld.ParseArrayDefs(done, x + t, |done|, false) == ld.ParseArrayDefs(done + [Item(|done|, v)], t, |done| + 1, false)
  {
    hide Loader.ItemSlot, Decimal, Nonwhite, GetString;
    assert ReadIn(ld, x + t, v, t);
    var u :| Denotes(ld, Nonwhite(x + t), v, u) && Nonwhite(u) == Nonwhite(t);
    NextIndex(ld, done);
    NonwhiteBack(x + t);
    ItemOfDenoted(ld, done, Nonwhite(x + t), v, u, |done|);
    SameNextSameItems(ld, done + [Item(|done|, v)], u, t, |done| + 1);
  }

  lemma NumberedMore(done: seq<Node>, v: Value)
    requires Numbered(done)
    ensures Numbered(done + [Item(|done|, v)])
  {
    hide Decimal;
  }

  /** The value of a definition of a new id, in every mode but `-`. */
  lemma BodyRead(ld: Loader, base: seq<Node>, id: string, mode: Mode, n: Next, v: Value, u: string)
    requires Denotes(ld, n, v, u) && Find(base, id).None? && !mode.Merge?
    ensures ld.Body(base, id, mode, n, false) == Ok(base + [Node(id, v)], SkipSep(u))
  {
    BodyOfDenoted(ld, base, n, Node(id, v), u);
    hide Loader.Block, Loader.ScalarDef, Nonwhite, SkipSep;
    assert Locate(base, id, mode) == Locate(base, id, MergeCreate);
  }

  // ----- lists of values

  /** The values under their indices, from n on. */
  function Items(vs: seq<Value>, n: nat): (r: seq<Node>)
    ensures |r| == |vs| && forall i :: 0 <= i < |r| ==> r[i] == Item(n + i, vs[i])
  {
    seq(|vs|, i requires 0 <= i < |vs| => Item(n + i, vs[i]))
  }

  ghost predicate AreValues(ld: Loader, xs: seq<string>, vs: seq<Value>) {
    |xs| == |vs| && forall i :: 0 <= i < |xs| ==> IsValue(ld, xs[i], vs[i])
  }

  predicate IsSeparator(s: string) {
    s == "" || s == "," || s == ";"
  }

  /** Between two items stands a separator, or the second begins with what ends a word, or the first stands alone. */
  ghost predicate Spaced(ld: Loader, xs: seq<string>, vs: seq<Value>, seps: seq<string>) {
    && |xs| == |vs| == |seps| && (forall i :: 0 <= i < |seps| ==> IsSeparator(seps[i]))
    && forall i :: 0 <= i < |xs| - 1 ==>
         seps[i] != [] || StandsAlone(ld, xs[i], vs[i]) || (xs[i + 1] != [] && EndsFreeString(xs[i + 1][0], false))
  }

  predicate NoSeparators(seps: seq<string>) {
    forall i :: 0 <= i < |seps| ==> seps[i] == []
  }

  /** The items with the separators behind them. */
  function Concat(xs: seq<string>, seps: seq<string>): string
    requires |xs| == |seps|
  {
    if xs == [] then [] else xs[0] + (seps[0] + Concat(xs[1..], seps[1..]))
  }

  lemma SpacedFacts(ld: Loader, xs: seq<string>, vs: seq<Value>, seps: seq<string>)
    requires Spaced(ld, xs, vs, seps)
    ensures |xs| == |vs| == |seps| && forall i :: 0 <= i < |seps| ==> IsSeparator(seps[i])
  {
  }

  lemma SpacedTail(ld: Loader, xs: seq<string>, vs: seq<Value>, seps: seq<string>)
    requires Spaced(ld, xs, vs, seps) && AreValues(ld, xs, vs) && xs != []
    ensures Spaced(ld, xs[1..], vs[1..], seps[1..]) && AreValues(ld, xs[1..], vs[1..])
  {
    hide IsValue, StandsAlone, IsSeparator, EndsFreeString;
    var ys, ws, ts := xs[1..], vs[1..], seps[1..];
    forall i | 0 <= i < |ys| - 1
      ensures ts[i] != [] || StandsAlone(ld, ys[i], ws[i]) || (ys[i + 1] != [] && EndsFreeString(ys[i + 1][0], false))
    {
      assert ts[i] == seps[i + 1] && ys[i] == xs[i + 1] && ws[i] == vs[i + 1] && ys[i + 1] == xs[i + 2];
    }
  }

  /** What stands behind the first item. */
  lemma FirstSpaced(ld: Loader, xs: seq<string>, vs: seq<Value>, seps: seq<string>, t: string)
    requires Spaced(ld, xs, vs, seps) && xs != [] && Separated(t, false)
    ensures StandsAlone(ld, xs[0], vs[0]) || Separated(seps[0] + (Concat(xs[1..], seps[1..]) + t), false)
  {
    hide StandsAlone;
    var more := Concat(xs[1..], seps[1..]) + t;
    if seps[0] != [] {
      assert (seps[0] + more)[0] == seps[0][0];
    } else {
      assert seps[0] + more == more;
      if |xs| > 1 {
        assert xs[1..][0] == xs[1];
        assert xs[0 + 1] == xs[1] && (xs[1] != [] ==> more[0] == xs[1][0]);
      } else {
        assert more == t;
      }
    }
  }

  /** Items without separators are all read. */
  lemma {:induction false} ReadItems(ld: Loader, done: seq<Node>, xs: seq<string>, vs: seq<Value>, seps: seq<string>,
                                     t: string)
    requires Numbered(done) && AreValues(ld, xs, vs) && Spaced(ld, xs, vs, seps) && NoSeparators(seps)
    requires Separated(t, false)
    ensures ld.ParseArrayDefs(done, Concat(xs, seps) + t, |done|, false)
         == ld.ParseArrayDefs(done + Items(vs, |done|), t, |done| + |xs|, false)
    decreases |xs|
  {
    hide Loader.ParseArrayDefs, IsValue, StandsAlone, Item, Items, Spaced;
    SpacedFacts(ld, xs, vs, seps);
    if xs == [] {
      assert Concat(xs, seps) + t == t && done + Items(vs, |done|) == done;
    } else {
      var more := Concat(xs[1..], seps[1..]) + t;
      SpacedTail(ld, xs, vs, seps);
      FirstSpaced(ld, xs, vs, seps, t);
      assert seps[0] == [] && seps[0] + more == more && Concat(xs, seps) + t == xs[0] + more;
      ItemThen(ld, done, xs[0], vs[0], more);
      NumberedMore(done, vs[0]);
      ReadItems(ld, done + [Item(|done|, vs[0])], xs[1..], vs[1..], seps[1..], t);
      ItemsSplit(done, vs);
    }
  }

  lemma ItemsSplit(done: seq<Node>, vs: seq<Value>)
    requires vs != []
    ensures done + Items(vs, |done|) == done + [Item(|done|, vs[0])] + Items(vs[1..], |done| + 1)
  {
    hide Item;
  }

  /** The text of the list behind its key, with blanks in front of it. */
  function ListText(b: string, xs: seq<string>, seps: seq<string>): string
    requires |xs| == |seps|
  {
    b + (['['] + (Concat(xs, seps) + [']']))
  }

  lemma ListDef(ld: Loader, kids: seq<Node>, p: string, mode: Mode, id: string, b: string, s: string)
    requires IsKey(ld, p, mode, id) && Blanks(b)
    ensures ld.Head(p + (b + (['['] + s))).Ok?
    ensures ld.ParseDef(kids, p + (b + (['['] + s)), false) == ld.Body(kids, id, mode, Char('[', s), false)
  {
    hide Loader.Head, Loader.Descend, Loader.Body;
    var l := ['['] + s;
    var u := b + l;
    assert Separated(u, true);
    NonwhiteSkipsBlanks(b, l);
    assert l[1..] == s && Nonwhite(l) == Char('[', s);
  }

  /** Loading a list under a new id. */
  lemma LoadList(ld: Loader, kids: seq<Node>, p: string, mode: Mode, id: string, b: string, xs: seq<string>,
                 vs: seq<Value>,
                 seps: seq<string>)
    requires IsKey(ld, p, mode, id) && !mode.Merge? && Find(kids, id).None? && Blanks(b)
    requires AreValues(ld, xs, vs) && Spaced(ld, xs, vs, seps) && NoSeparators(seps)
    ensures ld.Load(kids, p + ListText(b, xs, seps)) == Some(kids + [Node(id, Compound(Items(vs, 0), false))])
  {
    hide Loader.Load, Loader.Head, Loader.ParseDef, Loader.ParseArrayDefs, IsKey, AreValues, Find, Decimal, Spaced,
         Blanks;
    SpacedFacts(ld, xs, vs, seps);
    var s, items := Concat(xs, seps) + [']'], Items(vs, 0);
    ListDef(ld, kids, p, mode, id, b, s);
    ReadItems(ld, [], xs, vs, seps, [']']);
    assert [] + items == items;
    assert [']'] == [] + ([']'] + []);
    BlockCloses(ld, items, [], '[', [], |xs|);
    assert [']'] + [] == [']'];
    assert Denotes(ld, Char('[', s), Compound(items, false), []);
    BodyRead(ld, kids, id, mode, Char('[', s), Compound(items, false), []);
    assert SkipSep([]) == [];
    LoadOne(ld, kids, p + ListText(b, xs, seps));
  }

  // ----- separators

  lemma SeparatorFails(ld: Loader, kids: seq<Node>, sep: string, t: string, idx: nat)
    requires IsSeparator(sep) && sep != []
    ensures ld.ParseArrayDefs(kids, sep + t, idx, false).Err?
  {
    hide Loader.ItemSlot;
    var s := sep + t;
    assert s[1..] == t && Nonwhite(s) == Char(s[0], t) && [s[0]] + t == s;
    assert GetString(s, false).Err?;
  }

  lemma {:induction false} SeparatedItemsFail(ld: Loader, done: seq<Node>, xs: seq<string>, vs: seq<Value>,
                                              seps: seq<string>,
                                              t: string)
    requires Numbered(done) && AreValues(ld, xs, vs) && Spaced(ld, xs, vs, seps) && !NoSeparators(seps)
    requires Separated(t, false)
    ensures ld.ParseArrayDefs(done, Concat(xs, seps) + t, |done|, false).Err?
    decreases |xs|
  {
    hide Loader.ParseArrayDefs, IsValue, StandsAlone, Decimal, Spaced, IsSeparator;
    SpacedFacts(ld, xs, vs, seps);
    var more := Concat(xs[1..], seps[1..]) + t;
    assert Concat(xs, seps) + t == xs[0] + (seps[0] + more);
    FirstSpaced(ld, xs, vs, seps, t);
    ItemThen(ld, done, xs[0], vs[0], seps[0] + more);
    if seps[0] != [] {
      SeparatorFails(ld, done + [Item(|done|, vs[0])], seps[0], more, |done| + 1);
    } else {
      assert seps[0] + more == more;
      SpacedTail(ld, xs, vs, seps);
      NumberedMore(done, vs[0]);
      SeparatedItemsFail(ld, done + [Item(|done|, vs[0])], xs[1..], vs[1..], seps[1..], t);
    }
  }

  /** A list loads exactly when no item has a separator behind it. */
  lemma ListLoadsIff(ld: Loader, kids: seq<Node>, p: string, mode: Mode, id: string, b: string, xs: seq<string>,
                     vs: seq<Value>, seps: seq<string>)
    requires IsKey(ld, p, mode, id) && !mode.Merge? && Find(kids, id).None? && Blanks(b)
    requires AreValues(ld, xs, vs) && Spaced(ld, xs, vs, seps)
    ensures ld.Load(kids, p + ListText(b, xs, seps)).Some? <==> NoSeparators(seps)
    ensures NoSeparators(seps) ==>
              ld.Load(kids, p + ListText(b, xs, seps)) == Some(kids + [Node(id, Compound(Items(vs, 0), false))])
  {
    hide Loader.Load, Loader.Head, Loader.ParseDef, Loader.ParseArrayDefs, IsKey, AreValues, Find, Decimal, Spaced,
         Blanks;
    SpacedFacts(ld, xs, vs, seps);
    if NoSeparators(seps) {
      LoadList(ld, kids, p, mode, id, b, xs, vs, seps);
    } else {
      var s := Concat(xs, seps) + [']'];
      ListDef(ld, kids, p, mode, id, b, s);
      SeparatedItemsFail(ld, [], xs, vs, seps, [']']);
      BadListBody(ld, kids, id, mode, s);
      LoadOne(ld, kids, p + ListText(b, xs, seps));
    }
  }

  lemma BadListBody(ld: Loader, kids: seq<Node>, id: string, mode: Mode, s: string)
    requires ld.ParseArrayDefs([], s, 0, false).Err? && Find(kids, id).None? && !mode.Merge?
    ensures ld.Body(kids, id, mode, Char('[', s), false).Err?
  {
    hide Loader.ParseArrayDefs, Nonwhite, SkipSep, Find;
  }

  // ----- the same, one line for each item

  /** The lines `p.0 x0`, `p.1 x1`, ... from index n on. */
  function DottedText(p: string, xs: seq<string>, n: nat): string {
    if xs == [] then [] else p + ['.'] + (Decimal(n) + ([' '] + xs[0])) + (['\n'] + DottedText(p, xs[1..], n + 1))
  }

  /** The children with those defined so far under the id. */
  function Under(kids: seq<Node>, id: string, done: seq<Node>): seq<Node> {
    if done == [] then kids else kids + [Node(id, Compound(done, true))]
  }

  lemma IndexIsKey(ld: Loader, n: nat)
    ensures IsKey(ld, Decimal(n), ld.DefaultMode(), Decimal(n))
  {
    var s := Decimal(n);
    forall i | 0 <= i < |s|
      ensures !NeedsQuote(s[i]) && Plain(s[i])
    {
      assert IsDigit(s[i]);
    }
    assert IsDigit(s[0]);
    assert !Quoted(s, true) && IdOk(s) && StringPrint(s, true) == s;
    PlainIdIsKey(ld, s);
  }

  /** `0 x` in front of t, read into a list that lacks the index. */
  lemma IndexDef(ld: Loader, sub: seq<Node>, n: nat, x: string, v: Value, t: string)
    requires IsValue(ld, x, v) && Separated(t, false) && Find(sub, Decimal(n)).None?
    ensures var r := ld.ParseDef(sub, Decimal(n) + ([' '] + x) + t, false);
            r.Ok? && r.value == sub + [Item(n, v)] && (Clean(t) ==> Nonwhite(r.rest) == Nonwhite(t))
  {
    hide Decimal, Nonwhite, Loader.Body, Loader.Head, Find;
    var s, u := Decimal(n) + ([' '] + x) + t, [' '] + (x + t);
    assert s == Decimal(n) + u && Separated(u, true);
    IndexIsKey(ld, n);
    assert ld.Head(s) == Ok((ld.DefaultMode(), Decimal(n)), u);
    NonwhiteSkipsBlanks([' '], x + t);
    assert ReadIn(ld, x + t, v, t);
    var w :| Denotes(ld, Nonwhite(x + t), v, w) && Nonwhite(w) == Nonwhite(t);
    BodyRead(ld, sub, Decimal(n), ld.DefaultMode(), Nonwhite(x + t), v, w);
    if Clean(t) {
      NonwhiteBack(t);
    }
  }

  lemma DescendUnder(ld: Loader, kids: seq<Node>, id: string, done: seq<Node>, x: string, v: Value, t: string)
    requires Find(kids, id).None? && Numbered(done) && IsValue(ld, x, v) && Separated(t, false) && Clean(t)
    ensures var r := ld.Descend(Under(kids, id, done), id, MergeCreate, Decimal(|done|) + ([' '] + x) + t, false);
            r.Ok? && r.value == Under(kids, id, done + [Item(|done|, v)]) && Nonwhite(r.rest) == Nonwhite(t)
  {
    hide *;
    var s := Decimal(|done|) + ([' '] + x) + t;
    NextIndex(ld, done);
    IndexDef(ld, done, |done|, x, v, t);
    SubDef(ld, kids, id, done, s, done + [Item(|done|, v)]);
  }

  lemma SubDef(ld: Loader, kids: seq<Node>, id: string, done: seq<Node>, s: string, more: seq<Node>)
    requires Find(kids, id).None? && more != [] && ld.ParseDef(done, s, false).Ok?
    requires ld.ParseDef(done, s, false).value == more
    ensures var r := ld.Descend(Under(kids, id, done), id, MergeCreate, s, false);
            r.Ok? && r.value == Under(kids, id, more) && r.rest == ld.ParseDef(done, s, false).rest
  {
    hide Loader.ParseDef, Under, Locate, Store, SlotKids, SlotOpens;
    UnderSlot(kids, id, done, more);
  }

  lemma UnderSlot(kids: seq<Node>, id: string, done: seq<Node>, more: seq<Node>)
    requires Find(kids, id).None? && more != []
    ensures var all := Under(kids, id, done);
            var slot := Locate(all, id, MergeCreate);
            && (slot.Existing? || slot.Fresh?) && SlotOpens(all, slot) && SlotKids(all, slot) == done
            && Store(all, slot, id, Compound(more, true)) == Under(kids, id, more)
  {
    hide Find;
    FindAppended(kids, Node(id, Compound(done, true)), id);
  }

  lemma KeyStarts(ld: Loader, p: string, mode: Mode, id: string, u: string)
    requires IsKey(ld, p, mode, id) && Separated(u, true)
    ensures Clean(p + u) && Nonwhite(p + u).Char? && Nonwhite(p + u).c != '}'
  {
    hide Nonwhite, GetString;
    assert ld.Head(p + u).Ok?;
    HeadStarts(ld, p + u);
    SeparatorHead(ld, p + u);
  }

  lemma SeparatorHead(ld: Loader, t: string)
    requires ld.Head(t).Ok?
    ensures Clean(t)
  {
    hide Nonwhite;
    NonwhiteBack(t);
  }

  lemma LineThen(ld: Loader, kids: seq<Node>, p: string, id: string, done: seq<Node>, x: string, v: Value, t: string)
    requires IsKey(ld, p, MergeCreate, id) && Find(kids, id).None? && Numbered(done) && IsValue(ld, x, v)
    requires Separated(t, false) && Clean(t)
    ensures ld.ParseDefs(Under(kids, id, done), p + ['.'] + (Decimal(|done|) + ([' '] + x)) + t, false)
         == ld.ParseDefs(Under(kids, id, done + [Item(|done|, v)]), t, false)
  {
    hide *;
    var s := Decimal(|done|) + ([' '] + x) + t;
    var line := p + ['.'] + s;
    assert p + ['.'] + (Decimal(|done|) + ([' '] + x)) + t == line;
    DescendUnder(ld, kids, id, done, x, v, t);
    DottedThen(ld, Under(kids, id, done), p, id, s, t);
  }

  lemma DottedThen(ld: Loader, kids: seq<Node>, p: string, id: string, s: string, t: string)
    requires IsKey(ld, p, MergeCreate, id)
    requires var r := ld.Descend(kids, id, MergeCreate, s, false); r.Ok? && Nonwhite(r.rest) == Nonwhite(t)
    ensures ld.ParseDefs(kids, p + ['.'] + s, false) == ld.ParseDefs(ld.Descend(kids, id, MergeCreate, s, false).value, t, false)
  {
    hide *;
    var line, u := p + ['.'] + s, ['.'] + s;
    assert line == p + u;
    DotSeparates(s);
    KeyStarts(ld, p, MergeCreate, id, u);
    DottedDef(ld, kids, p, MergeCreate, id, s);
    SameHeadSameDef(ld, kids, line, false);
    var r := ld.Descend(kids, id, MergeCreate, s, false);
    DefThen(ld, kids, line, r.value, r.rest);
    SameNextSameDefs(ld, r.value, r.rest, t);
  }

  lemma DotSeparates(s: string)
    ensures Separated(['.'] + s, true)
  {
  }

  lemma DefThen(ld: Loader, kids: seq<Node>, t: string, kids1: seq<Node>, rest: string)
    requires Nonwhite(t).Char? && Nonwhite(t).c != '}' && ld.ParseDef(kids, Back(Nonwhite(t)), false) == Ok(kids1, rest)
    ensures ld.ParseDefs(kids, t, false) == ld.ParseDefs(kids1, rest, false)
  {
    hide Loader.ParseDef, Nonwhite;
  }

  lemma LinesStart(ld: Loader, p: string, mode: Mode, id: string, xs: seq<string>, n: nat)
    requires IsKey(ld, p, mode, id)
    ensures Clean(DottedText(p, xs, n)) && Clean(['\n'] + DottedText(p, xs, n))
  {
    hide IsKey, Nonwhite, Decimal;
    var t := DottedText(p, xs, n);
    NonwhiteSkipsBlanks(['\n'], t);
    if xs == [] {
      NothingClean();
    } else {
      var u := ['.'] + ((Decimal(n) + ([' '] + xs[0])) + (['\n'] + DottedText(p, xs[1..], n + 1)));
      assert t == p + u;
      KeyStarts(ld, p, mode, id, u);
    }
  }

  lemma NothingClean()
    ensures Clean([])
  {
  }

  lemma {:induction false} ReadLines(ld: Loader, kids: seq<Node>, p: string, id: string, done: seq<Node>,
                                     xs: seq<string>,
                                     vs: seq<Value>)
    requires IsKey(ld, p, MergeCreate, id) && Find(kids, id).None? && Numbered(done) && AreValues(ld, xs, vs)
    ensures ld.ParseDefs(Under(kids, id, done), DottedText(p, xs, |done|), false)
         == Ok(Under(kids, id, done + Items(vs, |done|)), [])
    decreases |xs|
  {
    hide Loader.ParseDefs, IsValue, Decimal, IsKey, Under;
    if xs == [] {
      assert done + Items(vs, |done|) == done;
      AtEnd(ld, Under(kids, id, done));
    } else {
      var more := DottedText(p, xs[1..], |done| + 1);
      LinesStart(ld, p, MergeCreate, id, xs[1..], |done| + 1);
      LineThen(ld, kids, p, id, done, xs[0], vs[0], ['\n'] + more);
      NumberedMore(done, vs[0]);
      NewLine(ld, Under(kids, id, done + [Item(|done|, vs[0])]), more);
      ReadLines(ld, kids, p, id, done + [Item(|done|, vs[0])], xs[1..], vs[1..]);
      ItemsSplit(done, vs);
    }
  }

  lemma NewLine(ld: Loader, kids: seq<Node>, t: string)
    ensures ld.ParseDefs(kids, ['\n'] + t, false) == ld.ParseDefs(kids, t, false)
  {
    hide Nonwhite, Loader.ParseDefs;
    NonwhiteSkipsBlanks(['\n'], t);
    SameNextSameDefs(ld, kids, ['\n'] + t, t);
  }

  lemma AtEnd(ld: Loader, kids: seq<Node>)
    ensures ld.ParseDefs(kids, [], false) == Ok(kids, [])
  {
  }

  /** Where the id is absent, the list and the lines give the same up to the join flag, for all texts of values. */
  lemma ListIsDotted(ld: Loader, kids: seq<Node>, p: string, id: string, b: string, xs: seq<string>, vs: seq<Value>,
                     seps: seq<string>)
    requires IsKey(ld, p, MergeCreate, id) && Find(kids, id).None? && Blanks(b) && xs != []
    requires AreValues(ld, xs, vs) && Spaced(ld, xs, vs, seps) && NoSeparators(seps)
    ensures var l, d := ld.Load(kids, p + ListText(b, xs, seps)), ld.Load(kids, DottedText(p, xs, 0));
            && l == Some(kids + [Node(id, Compound(Items(vs, 0), false))])
            && d == Some(kids + [Node(id, Compound(Items(vs, 0), true))])
            && SameUpToJoin(l.value, d.value)
  {
    hide Loader.ParseDefs, IsValue, Decimal, IsKey, Find, Spaced, Blanks;
    LoadList(ld, kids, p, MergeCreate, id, b, xs, vs, seps);
    ReadLines(ld, kids, p, id, [], xs, vs);
    assert [] + Items(vs, 0) == Items(vs, 0);
  }

  // ----- at real texts

  /** A digit is the text of a value, with a blank in front of it, behind it, or around it. */
  lemma DigitIsValue(ld: Loader, d: string) returns (v: Value)
    requires d == "1" || d == "2"
    ensures IsValue(ld, d, v) && IsValue(ld, [' '] + d, v) && IsValue(ld, [' '] + d + [' '], v)
  {
    v := ld.Scalar(Token(d, false));
    WordIsValue(ld, d);
    hide IsValue, StandsAlone;
    BlanksAround(ld, [' '], d, v, []);
    assert [' '] + d + [] == [' '] + d;
    BlanksAround(ld, [' '], d, v, [' ']);
  }

  lemma TwoItems(b: string, x: string, y: string, s: string, t: string)
    ensures ListText(b, [x, y], [s, t]) == b + ['['] + x + s + y + t + [']']
  {
    assert [x, y][1..] == [y] && [s, t][1..] == [t] && [y][1..] == [] && [t][1..] == [];
    assert Concat([y], [t]) == y + (t + []) == y + t;
    assert Concat([x, y], [s, t]) == x + (s + Concat([y], [t]));
  }

  /** The spelling that the documentation gives is refused, and without its comma it is a list of two. */
  lemma DocumentedList(ld: Loader, kids: seq<Node>)
    requires Find(kids, "a").None?
    ensures ld.Load(kids, "a [ 1, 2 ]").None?
    ensures ld.Load(kids, "a [1 2]").Some? && |ld.Load(kids, "a [1 2]").value| == |kids| + 1
  {
    hide IsValue, StandsAlone, Loader.Load, IsKey, Find;
    LetterIsKey(ld, "a");
    var v := DigitIsValue(ld, "1");
    var w := DigitIsValue(ld, "2");
    var xs, seps := [[' '] + "1", [' '] + "2" + [' ']], [",", ""];
    TwoItems([' '], xs[0], xs[1], seps[0], seps[1]);
    assert "a" + ListText([' '], xs, seps) == "a [ 1, 2 ]";
    ListLoadsIff(ld, kids, "a", ld.DefaultMode(), "a", [' '], xs, [v, w], seps);
    var ys, none := ["1", [' '] + "2"], ["", ""];
    TwoItems([' '], ys[0], ys[1], none[0], none[1]);
    assert "a" + ListText([' '], ys, none) == "a [1 2]";
    ListLoadsIff(ld, kids, "a", ld.DefaultMode(), "a", [' '], ys, [v, w], none);
  }
}
