/**
 The lexer as it runs (conf.c:790-1124): loops over get_char with a one-character pushback slot.  Each method
 returns what the corresponding function of Lexer says about the text that was left, and leaves what it leaves.
 */
module LexerMachine {
  import opened Lexer
  import opened InputStream

  function NextOf(g: Got, rest: string): Next {
    match g
    case GotEof => Eof
    case GotInclude => Include(rest)
    case Got(c) => Char(c, rest)
  }

  /** The next character outside comments. */
  function OutsideComments(t: string): (n: Next)
    ensures !n.Eof? ==> |n.rest| < |t|
    decreases |t|
  {
    if t == [] then Eof
    else if t[0] == '<' then Include(t[1..])
    else if t[0] == '#' then OutsideComments(SkipComment(t[1..]))
    else Char(t[0], t[1..])
  }

  lemma {:induction false} NonwhiteByComments(t: string)
    ensures Nonwhite(t) ==
            var n := OutsideComments(t);
            if n.Char? && IsBlank(n.c) then Nonwhite(n.rest) else n
    decreases |t|
  {
    if t != [] && t[0] == '#' {
      NonwhiteByComments(SkipComment(t[1..]));
    }
  }

  method GetCharSkipComments(input: Input) returns (g: Got)
    requires input.Valid()
    modifies input
    ensures input.Valid() && !input.unget
    ensures g.GotEof? ==> input.Text() == []
    ensures NextOf(g, input.Text()) == OutsideComments(old(input.Text()))
  {
    while true
      invariant input.Valid()
      invariant OutsideComments(input.Text()) == OutsideComments(old(input.Text()))
      decreases |input.Text()|
    {
      g := input.GetChar();
      if g == Got('<') {
        return GotInclude;
      }
      if g != Got('#') {
        return g;
      }
      g := SkipLine(input);
      if g.GotEof? {
        return;
      }
    }
  }

  /** The inner loop over the rest of a comment line. */
  method SkipLine(input: Input) returns (g: Got)
    requires input.Valid() && !input.unget
    modifies input
    ensures input.Valid() && !input.unget
    ensures input.Text() == SkipComment(old(input.Text()))
    ensures g.GotEof? ==> input.Text() == []
  {
    while true
      invariant input.Valid() && !input.unget
      invariant SkipComment(input.Text()) == SkipComment(old(input.Text()))
      invariant |input.Text()| <= |old(input.Text())|
      decreases |input.Text()|
    {
      g := input.GetChar();
      if g.GotEof? || g == Got('\n') {
        return;
      }
    }
  }

  method GetNonwhite(input: Input) returns (g: Got)
    requires input.Valid()
    modifies input
    ensures input.Valid() && !input.unget
    ensures g.GotEof? ==> input.Text() == []
    ensures NextOf(g, input.Text()) == Nonwhite(old(input.Text()))
  {
    while true
      invariant input.Valid()
      invariant Nonwhite(input.Text()) == Nonwhite(old(input.Text()))
      decreases |input.Text()|
    {
      NonwhiteByComments(input.Text());
      g := GetCharSkipComments(input);
      if !(g.Got? && IsBlank(g.c)) {
        return;
      }
    }
  }

  method GetHexachar(input: Input) returns (v: nat)
    requires input.Valid() && !input.unget
    modifies input
    ensures input.Valid() && !input.unget
    ensures (v, input.Text()) == HexByte(old(input.Text()))
  {
    var g := input.GetChar();
    v := if g.Got? then 16 * HexNibble(g.c) else 0;
    g := input.GetChar();
    v := v + (if g.Got? then HexNibble(g.c) else 0);
  }

  method GetOctal(input: Input, first: char) returns (num: nat)
    requires input.Valid() && !input.unget && IsOctal(first)
    modifies input
    ensures input.Plain()
    ensures (num, input.Text()) == OctalTail(old(input.Text()), first as int - '0' as int, 2)
  {
    num := first as int - '0' as int;
    var i := 1;
    while i < 3
      invariant 1 <= i <= 3 && input.Valid() && !input.unget
      invariant OctalTail(input.Text(), num, 3 - i) == OctalTail(old(input.Text()), first as int - '0' as int, 2)
    {
      ghost var t := input.Text();
      var g := input.GetChar();
      if !(g.Got? && IsOctal(g.c)) {
        input.UngetChar(g);
        assert input.Text() == t;
        return;
      }
      num := num * 8 + (g.c as int - '0' as int);
      i := i + 1;
    }
  }

  method GetQuotedchar(input: Input) returns (r: Outcome<nat>)
    requires input.Plain()
    modifies input
    ensures input.Plain()
    ensures AsRes(r, input.Text()) == QuotedChar(old(input.Text()))
  {
    var g := input.GetChar();
    if g.GotEof? {
      return Fail(UnexpectedEof);
    }
    var c := g.c;
    if c == 'n' {
      return Done(10);
    } else if c == 't' {
      return Done(9);
    } else if c == 'v' {
      return Done(11);
    } else if c == 'b' {
      return Done(8);
    } else if c == 'r' {
      return Done(13);
    } else if c == 'f' {
      return Done(12);
    } else if c == 'x' {
      var v := GetHexachar(input);
      return Done(v);
    } else if IsOctal(c) {
      var v := GetOctal(input, c);
      return Done(v);
    } else {
      return Done(c as int);
    }
  }

  lemma PrependNothing(r: Res<string>)
    ensures Prepend([], r) == r
  {
    if r.Ok? {
      assert [] + r.value == r.value;
    }
  }

  lemma PrependTwice(a: string, b: string, r: Res<string>)
    ensures Prepend(a, Prepend(b, r)) == Prepend(a + b, r)
  {
    if r.Ok? {
      assert a + (b + r.value) == a + b + r.value;
    }
  }

  method GetDelimstring(input: Input, delim: char) returns (r: Outcome<string>)
    requires input.Plain()
    modifies input
    ensures input.Plain()
    ensures AsRes(r, input.Text()) == DelimString(old(input.Text()), delim)
  {
    var str := new LocalString();
    PrependNothing(DelimString(input.Text(), delim));
    while true
      invariant input.Plain() && str.Valid() && fresh(str) && fresh(str.buf)
      invariant DelimString(old(input.Text()), delim) == Prepend(str.Contents(), DelimString(input.Text(), delim))
      decreases |input.Text()|
    {
      ghost var t, done := input.Text(), str.Contents();
      var g := input.GetChar();
      if g.GotEof? {
        return Fail(UnexpectedEof);
      }
      var c := g.c;
      if c == '\\' {
        var q := GetQuotedchar(input);
        if q.Fail? {
          return Fail(q.error);
        }
        if q.value == 10 {
          continue;
        }
        c := ToByte(q.value);
      } else if c == delim {
        var text := str.buf[..str.idx];
        assert text + [] == text;
        return Done(text);
      }
      assert DelimString(t, delim) == Prepend([c], DelimString(input.Text(), delim));
      PrependTwice(done, [c], DelimString(input.Text(), delim));
      str.AddChar(c);
    }
  }

  method GetFreestring(input: Input, id: bool) returns (s: string)
    requires input.Plain()
    modifies input
    ensures input.Plain()
    ensures (s, input.Text()) == FreeString(old(input.Text()), id)
  {
    hide FreeString, EndsFreeString, Flatten;
    var str := new LocalString();
    ghost var done := [];
    while true
      invariant input.Plain() && str.Valid() && fresh(str) && fresh(str.buf)
      invariant str.Contents() == done && FreeChars(done, id)
      invariant old(input.Text()) == done + input.Text()
      decreases |input.Text()|
    {
      ghost var t := input.Text();
      var g := input.GetChar();
      if g.GotEof? || EndsFreeString(g.c, id) {
        if g.Got? {
          input.UngetChar(g);
        }
        s := str.buf[..str.idx];
        assert input.Text() == t && Separated(t, id);
        FreeStringOf(s, id, t);
        return;
      }
      str.AddChar(g.c);
      assert done + t == done + [g.c] + input.Text();
      done := done + [g.c];
    }
  }

  method ReadToken(input: Input, id: bool) returns (r: Outcome<Token>)
    requires input.Valid()
    modifies input
    ensures input.Plain()
    ensures AsRes(r, input.Text()) == GetString(old(input.Text()), id)
  {
    var g := GetNonwhite(input);
    match g {
      case GotEof => return Fail(UnexpectedEof);
      case GotInclude => return Fail(IncludeDirective);
      case Got(c) =>
        if IsPunctuation(c) {
          return Fail(UnexpectedChar);
        } else if IsQuote(c) {
          var d := GetDelimstring(input, c);
          match d {
            case Fail(e) => return Fail(e);
            case Done(s) => return Done(Token(CString(s), true));
          }
        } else {
          input.UngetChar(g);
          var s := GetFreestring(input, id);
          return Done(Token(CString(s), false));
        }
    }
  }
}
