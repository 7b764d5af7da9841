/**
 Reading never looks past the closing brace or the end of the text that stops it: what is read from a text
 is read in the same way from the same text in front of another stop.
 */
module Locality {
  import opened Numbers
  import opened Lexer
  import opened Tree
  import opened Parser

  /** The end of the text or a closing brace. */
  predicate Stop(z: string) {
    z == [] || z[0] == '}'
  }

  /** The text ends inside a comment, quoted texts aside. */
  predicate CommentOpen(s: string)
    decreases |s|
  {
    if s == [] then false
    else if s[0] == '#' then '\n' !in s || CommentOpen(SkipComment(s[1..]))
    else if IsQuote(s[0]) then
      match DelimString(s[1..], s[0])
      case Ok(_, rest) => CommentOpen(rest)
      case Err(_, _) => false
    else CommentOpen(s[1..])
  }

  /** s may be read in front of z as well as of y; at the end of the text no comment may be left open. */
  predicate Framed(s: string, z: string, y: string) {
    Stop(z) && Stop(y) && (z == [] ==> !CommentOpen(s))
  }

  predicate IsTail(d: string, s: string) {
    |d| <= |s| && s[|s| - |d|..] == d
  }

  lemma FramedStep(s: string, z: string, y: string)
    requires Framed(s, z, y) && s != [] && s[0] != '#' && !IsQuote(s[0])
    ensures Framed(s[1..], z, y)
  {
  }

  lemma FramedComment(s: string, z: string, y: string)
    requires Framed(s, z, y) && s != [] && s[0] == '#'
    ensures (z == [] ==> '\n' in s[1..]) && Framed(SkipComment(s[1..]), z, y)
  {
    assert s == [s[0]] + s[1..];
  }

  lemma TailStep(d: string, s: string)
    requires s != [] && IsTail(d, s[1..])
    ensures IsTail(d, s)
  {
  }

  lemma TailTrans(a: string, b: string, c: string)
    requires IsTail(a, b) && IsTail(b, c)
    ensures IsTail(a, c)
  {
  }

  lemma Shift(s: string, z: string)
    requires s != []
    ensures (s + z)[0] == s[0] && (s + z)[1..] == s[1..] + z
    ensures IsTail(s[1..], s)
  {
  }

  lemma {:induction false} SkipCommentLocal(s: string, z: string, y: string) returns (d: string)
    requires |SkipComment(s + z)| >= |z| && Stop(z) && Stop(y) && (z == [] ==> '\n' in s)
    ensures SkipComment(s + z) == d + z && SkipComment(s + y) == d + y && IsTail(d, s) && d == SkipComment(s)
  {
    if s == [] {
      d := [];
      assert false;
    } else {
      Shift(s, z);
      Shift(s, y);
      if s[0] == '\n' {
        d := s[1..];
      } else {
        assert s == [s[0]] + s[1..];
        d := SkipCommentLocal(s[1..], z, y);
        TailStep(d, s);
      }
    }
  }

  /** What get_nonwhite finds in s, in front of z and of y, is at d. */
  ghost predicate NextAt(s: string, z: string, y: string, d: string) {
    && IsTail(d, s) && Framed(d, z, y) && Back(Nonwhite(s + z)) == d + z && Back(Nonwhite(s + y)) == d + y
    && (d != [] ==> d[0] != '#')
    && (d == [] ==> Nonwhite(s + z) == Nonwhite(z) && Nonwhite(s + y) == Nonwhite(y))
    && (d != [] ==> Nonwhite(s + z) == (if d[0] == '<' then Include(d[1..] + z) else Char(d[0], d[1..] + z)))
    && (d != [] ==> Nonwhite(s + y) == (if d[0] == '<' then Include(d[1..] + y) else Char(d[0], d[1..] + y)))
  }

  lemma NextFurther(s: string, c: string, z: string, y: string, d: string)
    requires NextAt(c, z, y, d) && IsTail(c, s) && Nonwhite(s + z) == Nonwhite(c + z)
    requires Nonwhite(s + y) == Nonwhite(c + y)
    ensures NextAt(s, z, y, d)
  {
    hide Nonwhite, Framed;
    TailTrans(d, c, s);
  }

  lemma NextHere(s: string, z: string, y: string)
    requires Framed(s, z, y) && (s == [] || (s[0] != '#' && !IsBlank(s[0])))
    ensures NextAt(s, z, y, s)
  {
    hide Framed;
    if s == [] {
      assert s + z == z && s + y == y && Stop(z) && Stop(y) by { FramedStops(s, z, y); }
      StopNext(z);
      StopNext(y);
    } else {
      Shift(s, z);
      Shift(s, y);
      assert s == [s[0]] + s[1..];
    }
  }

  lemma FramedStops(s: string, z: string, y: string)
    requires Framed(s, z, y)
    ensures Stop(z) && Stop(y)
  {
  }

  lemma SkipStep(s: string, z: string)
    requires s != [] && (s[0] == '#' || IsBlank(s[0]))
    ensures Nonwhite(s + z) == Nonwhite(if s[0] == '#' then SkipComment(s[1..] + z) else s[1..] + z)
  {
    hide SkipComment;
    Shift(s, z);
  }

  lemma {:induction false} NextLocal(s: string, z: string, y: string) returns (d: string)
    requires Framed(s, z, y) && |Back(Nonwhite(s + z))| >= |z|
    ensures NextAt(s, z, y, d)
    decreases |s|
  {
    hide SkipComment, CommentOpen, NextAt, Nonwhite;
    if s == [] || (s[0] != '#' && !IsBlank(s[0])) {
      d := s;
      NextHere(s, z, y);
    } else {
      SkipStep(s, z);
      SkipStep(s, y);
      var c := s[1..];
      if s[0] == '#' {
        FramedComment(s, z, y);
        NonwhiteShort(SkipComment(s[1..] + z));
        c := SkipCommentLocal(s[1..], z, y);
      } else {
        FramedStep(s, z, y);
      }
      TailStep(c, s);
      d := NextLocal(c, z, y);
      NextFurther(s, c, z, y, d);
    }
  }

  lemma NonwhiteLocal(s: string, z: string, y: string) returns (d: string)
    requires Framed(s, z, y) && |Back(Nonwhite(s + z))| >= |z|
    ensures IsTail(d, s) && Framed(d, z, y) && Back(Nonwhite(s + z)) == d + z && Back(Nonwhite(s + y)) == d + y
    ensures d != [] ==> d[0] != '#'
    ensures d == [] ==> Nonwhite(s + z) == Nonwhite(z) && Nonwhite(s + y) == Nonwhite(y)
    ensures d != [] ==> Nonwhite(s + z) == (if d[0] == '<' then Include(d[1..] + z) else Char(d[0], d[1..] + z))
    ensures d != [] ==> Nonwhite(s + y) == (if d[0] == '<' then Include(d[1..] + y) else Char(d[0], d[1..] + y))
  {
    hide Nonwhite;
    d := NextLocal(s, z, y);
  }

  lemma StopNext(z: string)
    requires Stop(z)
    ensures Back(Nonwhite(z)) == z
    ensures Nonwhite(z) == if z == [] then Eof else Char('}', z[1..])
  {
  }

  lemma {:induction false} FreeStringLocal(s: string, z: string, y: string, id: bool) returns (d: string)
    requires Framed(s, z, y)
    ensures IsTail(d, s) && Framed(d, z, y)
    ensures FreeString(s + z, id).1 == d + z
    ensures FreeString(s + y, id) == (FreeString(s + z, id).0, d + y)
  {
    d := s;
    if s == [] {
      assert s + z == z && s + y == y;
    } else {
      Shift(s, z);
      Shift(s, y);
      if !EndsFreeString(s[0], id) {
        FramedStep(s, z, y);
        d := FreeStringLocal(s[1..], z, y, id);
        TailStep(d, s);
      }
    }
  }

  lemma {:induction false} OctalTailLocal(s: string, z: string, y: string, num: nat, more: nat) returns (d: string)
    requires |OctalTail(s + z, num, more).1| > |z|
    ensures IsTail(d, s)
    ensures OctalTail(s + z, num, more).1 == d + z
    ensures OctalTail(s + y, num, more) == (OctalTail(s + z, num, more).0, d + y)
    decreases more
  {
    d := s;
    if s == [] {
      assert false;
    } else {
      Shift(s, z);
      Shift(s, y);
      if more > 0 && IsOctal(s[0]) {
        d := OctalTailLocal(s[1..], z, y, num * 8 + (s[0] as int - '0' as int), more - 1);
        TailStep(d, s);
      }
    }
  }

  lemma HexByteLocal(u: string, z: string, y: string)
    requires |HexByte(u + z).1| > |z|
    ensures |u| >= 2
    ensures HexByte(u + z).1 == u[2..] + z && HexByte(u + y) == (HexByte(u + z).0, u[2..] + y)
  {
    if |u| >= 2 {
      assert (u + z)[2..] == u[2..] + z && (u + y)[2..] == u[2..] + y;
    }
  }

  lemma QuotedCharLocal(s: string, z: string, y: string) returns (d: string)
    requires QuotedChar(s + z).Ok? && |QuotedChar(s + z).rest| > |z|
    ensures IsTail(d, s)
    ensures QuotedChar(s + z).rest == d + z
    ensures QuotedChar(s + y) == Ok(QuotedChar(s + z).value, d + y)
  {
    hide OctalTail, HexByte;
    if s == [] {
      d := [];
      assert false;
    } else {
      Shift(s, z);
      Shift(s, y);
      var u := s[1..];
      d := u;
      if s[0] == 'x' {
        HexByteLocal(u, z, y);
        d := u[2..];
      } else if IsOctal(s[0]) {
        d := OctalTailLocal(u, z, y, s[0] as int - '0' as int, 2);
        TailStep(d, s);
      }
    }
  }

  lemma {:induction false} DelimStringLocal(s: string, z: string, y: string, q: char) returns (d: string)
    requires DelimString(s + z, q).Ok? && |DelimString(s + z, q).rest| >= |z|
    ensures IsTail(d, s)
    ensures DelimString(s + z, q).rest == d + z
    ensures DelimString(s + y, q) == Ok(DelimString(s + z, q).value, d + y)
    decreases |s|
  {
    hide QuotedChar;
    if s == [] {
      d := [];
      assert false;
    } else {
      Shift(s, z);
      Shift(s, y);
      if s[0] == '\\' {
        var c := QuotedCharLocal(s[1..], z, y);
        TailStep(c, s);
        d := DelimStringLocal(c, z, y, q);
        TailTrans(d, c, s);
      } else if s[0] == q {
        d := s[1..];
      } else {
        d := DelimStringLocal(s[1..], z, y, q);
        TailStep(d, s);
      }
    }
  }

  lemma GetStringLocal(s: string, z: string, y: string, id: bool) returns (d: string)
    requires Framed(s, z, y) && GetString(s + z, id).Ok? && |GetString(s + z, id).rest| >= |z|
    ensures IsTail(d, s) && |d| < |s| && Framed(d, z, y)
    ensures GetString(s + z, id).rest == d + z
    ensures GetString(s + y, id) == Ok(GetString(s + z, id).value, d + y)
  {
    hide Nonwhite, DelimString, FreeString, CString;
    NonwhiteRest(s + z);
    var b := NonwhiteLocal(s, z, y);
    StopNext(z);
    if IsQuote(b[0]) {
      d := DelimStringLocal(b[1..], z, y, b[0]);
      TailStep(d, b);
      assert z == [] ==> b[1..] + z == b[1..] && d + z == d;
    } else {
      assert [b[0]] + (b[1..] + z) == b + z && [b[0]] + (b[1..] + y) == b + y;
      d := FreeStringLocal(b, z, y, id);
      FreeStringTakes(b + z, id);
    }
    TailTrans(d, b, s);
  }

  lemma NonwhiteRest(t: string)
    ensures Nonwhite(t).Char? ==> |Back(Nonwhite(t))| == |Nonwhite(t).rest| + 1
  {
  }

  lemma FreeStringTakes(t: string, id: bool)
    ensures t != [] && !EndsFreeString(t[0], id) ==> |FreeString(t, id).1| < |t|
  {
  }

  // ----- definitions

  lemma HeadLocal(ld: Loader, s: string, z: string, y: string) returns (d: string)
    requires Framed(s, z, y) && ld.Head(s + z).Ok? && |ld.Head(s + z).rest| >= |z|
    ensures IsTail(d, s) && Framed(d, z, y) && |d| < |s|
    ensures ld.Head(s + z).rest == d + z
    ensures ld.Head(s + y) == Ok(ld.Head(s + z).value, d + y)
  {
    hide Nonwhite, GetString;
    NonwhiteRest(s + z);
    var b := NonwhiteLocal(s, z, y);
    StopNext(z);
    StopString(z, true);
    if b == [] {
      d := [];
      assert false;
    } else if IsModeChar(b[0]) {
      ModeNotQuote(b[0]);
      FramedStep(b, z, y);
      d := GetStringLocal(b[1..], z, y, true);
      TailStep(d, b);
    } else {
      assert [b[0]] + (b[1..] + z) == b + z && [b[0]] + (b[1..] + y) == b + y;
      d := GetStringLocal(b, z, y, true);
    }
    TailTrans(d, b, s);
  }

  lemma ModeNotQuote(c: char)
    requires IsModeChar(c)
    ensures c != '#' && !IsQuote(c)
  {
  }

  lemma StopString(z: string, id: bool)
    requires Stop(z)
    ensures GetString(z, id).Err?
  {
  }

  lemma SkipSepLocal(s: string, z: string, y: string) returns (d: string)
    requires Framed(s, z, y) && |SkipSep(s + z)| >= |z|
    ensures IsTail(d, s) && Framed(d, z, y) && SkipSep(s + z) == d + z && SkipSep(s + y) == d + y
  {
    hide Nonwhite;
    NonwhiteRest(s + z);
    var b := NonwhiteLocal(s, z, y);
    StopNext(z);
    StopNext(y);
    d := b;
    if b != [] && (b[0] == ';' || b[0] == ',') {
      d := b[1..];
      TailTrans(d, b, s);
    }
  }

  lemma ScalarDefLocal(ld: Loader, kids: seq<Node>, id: string, slot: Slot, s: string, z: string, y: string)
    returns (d: string)
    requires Framed(s, z, y) && (slot.Existing? ==> slot.i < |kids|)
    requires var r := ld.ScalarDef(kids, id, slot, s + z); r.Ok? && |r.rest| >= |z|
    ensures IsTail(d, s) && Framed(d, z, y) && |d| < |s|
    ensures var r := ld.ScalarDef(kids, id, slot, s + z);
            r.rest == d + z && ld.ScalarDef(kids, id, slot, s + y) == Ok(r.value, d + y)
  {
    hide Nonwhite, GetString, Store, Assign, SkipSep, Loader.Scalar;
    var c := GetStringLocal(s, z, y, false);
    d := SkipSepLocal(c, z, y);
    TailTrans(d, c, s);
  }

  lemma ClosesLocal(s: string, z: string, y: string, open: char) returns (d: string)
    requires Framed(s, z, y)
    requires var e := Nonwhite(s + z); At(e, Closing(open)) && |e.rest| >= |z|
    ensures IsTail(d, s) && Framed(d, z, y) && |d| < |s|
    ensures Nonwhite(s + z) == Char(Closing(open), d + z) && Nonwhite(s + y) == Char(Closing(open), d + y)
  {
    hide Nonwhite;
    NonwhiteRest(s + z);
    var b := NonwhiteLocal(s, z, y);
    StopNext(z);
    d := b[1..];
    TailTrans(d, b, s);
  }

  lemma BlockLocal(ld: Loader, kids: seq<Node>, id: string, slot: Slot, open: char, s: string, z: string, y: string)
    returns (d: string)
    requires Framed(s, z, y) && (slot.Existing? ==> slot.i < |kids|) && (open == '{' || open == '[')
    requires var r := ld.Block(kids, id, slot, open, s + z); r.Ok? && |r.rest| >= |z|
    ensures IsTail(d, s) && Framed(d, z, y)
    ensures var r := ld.Block(kids, id, slot, open, s + z);
            r.rest == d + z && ld.Block(kids, id, slot, open, s + y) == Ok(r.value, d + y)
    decreases |s|, 3
  {
    hide Nonwhite, Store, SkipSep, SlotKids, SlotJoin, Loader.ParseDefs, Loader.ParseArrayDefs;
    var sub := SlotKids(kids, slot);
    var c;
    if open == '{' {
      c := ParseDefsLocal(ld, sub, s, z, y, slot.Skipped?);
    } else {
      c := ItemsLocal(ld, sub, s, z, y, 0, slot.Skipped?);
    }
    var e := ClosesLocal(c, z, y, open);
    d := SkipSepLocal(e, z, y);
    TailTrans(d, e, c);
    TailTrans(d, c, s);
  }

  lemma ScalarBodyLocal(ld: Loader, kids: seq<Node>, id: string, slot: Slot, s: string, z: string, y: string)
    returns (d: string)
    requires Framed(s, z, y) && s != [] && (slot.Existing? ==> slot.i < |kids|)
    requires var r := ld.ScalarDef(kids, id, slot, [s[0]] + (s[1..] + z)); r.Ok? && |r.rest| >= |z|
    ensures IsTail(d, s) && Framed(d, z, y) && |d| < |s|
    ensures var r := ld.ScalarDef(kids, id, slot, [s[0]] + (s[1..] + z));
            r.rest == d + z && ld.ScalarDef(kids, id, slot, [s[0]] + (s[1..] + y)) == Ok(r.value, d + y)
  {
    hide Loader.ScalarDef, Framed;
    assert [s[0]] + (s[1..] + z) == s + z && [s[0]] + (s[1..] + y) == s + y;
    d := ScalarDefLocal(ld, kids, id, slot, s, z, y);
  }

  lemma BlockBodyLocal(ld: Loader, kids: seq<Node>, id: string, slot: Slot, s: string, z: string, y: string)
    returns (d: string)
    requires Framed(s, z, y) && s != [] && (slot.Existing? ==> slot.i < |kids|) && (s[0] == '{' || s[0] == '[')
    requires var r := ld.Block(kids, id, slot, s[0], s[1..] + z); r.Ok? && |r.rest| >= |z|
    ensures IsTail(d, s) && Framed(d, z, y) && |d| < |s|
    ensures var r := ld.Block(kids, id, slot, s[0], s[1..] + z);
            r.rest == d + z && ld.Block(kids, id, slot, s[0], s[1..] + y) == Ok(r.value, d + y)
    decreases |s|, 0
  {
    hide Loader.Block;
    assert IsTail(s[1..], s);
    FramedStep(s, z, y);
    d := BlockLocal(ld, kids, id, slot, s[0], s[1..], z, y);
    TailStep(d, s);
  }

  lemma BodyLocal(ld: Loader, kids: seq<Node>, id: string, mode: Mode, s: string, z: string, y: string, skip: bool)
    returns (d: string)
    requires Framed(s, z, y) && s != []
    requires var r := ld.Body(kids, id, mode, Char(s[0], s[1..] + z), skip); r.Ok? && |r.rest| >= |z|
    ensures IsTail(d, s) && Framed(d, z, y) && |d| < |s|
    ensures var r := ld.Body(kids, id, mode, Char(s[0], s[1..] + z), skip);
            r.rest == d + z && ld.Body(kids, id, mode, Char(s[0], s[1..] + y), skip) == Ok(r.value, d + y)
    decreases |s|, 1
  {
    hide Locate, Loader.Block, Loader.ScalarDef, Loader.Body, SlotOpens, Framed, IsTail;
    BodyOf(ld, kids, id, mode, s[0], s[1..] + z, skip);
    BodyOf(ld, kids, id, mode, s[0], s[1..] + y, skip);
    var slot := if skip then Skipped else Locate(kids, id, mode);
    if s[0] == '{' || s[0] == '[' {
      d := BlockBodyLocal(ld, kids, id, slot, s, z, y);
    } else {
      d := ScalarBodyLocal(ld, kids, id, slot, s, z, y);
    }
  }

  lemma BodyOf(ld: Loader, kids: seq<Node>, id: string, mode: Mode, c: char, t: string, skip: bool)
    ensures var slot := if skip then Skipped else Locate(kids, id, mode);
            ld.Body(kids, id, mode, Char(c, t), skip) ==
            if slot.Failed? then Err(slot.error, t)
            else if c == '{' || c == '[' then
              if SlotOpens(kids, slot) then ld.Block(kids, id, slot, c, t) else Err(Invalid, t)
            else ld.ScalarDef(kids, id, slot, [c] + t)
  {
    hide Locate, Loader.Block, Loader.ScalarDef;
  }

  lemma BodyIncludes(ld: Loader, kids: seq<Node>, id: string, mode: Mode, t: string, skip: bool)
    ensures ld.Body(kids, id, mode, Include(t), skip).Err?
  {
    hide Locate, Loader.Block;
    assert GetString(['<'] + t, false).Err?;
  }

  lemma BodyStops(ld: Loader, kids: seq<Node>, id: string, mode: Mode, z: string, skip: bool)
    requires Stop(z)
    ensures ld.Body(kids, id, mode, Nonwhite(z), skip).Err?
  {
    StopNext(z);
    StopString(z, false);
    hide Loader.Block, GetString, Nonwhite, Locate;
  }

  lemma DefineLocal(ld: Loader, kids: seq<Node>, id: string, mode: Mode, s: string, z: string, y: string, skip: bool)
    returns (d: string)
    requires Framed(s, z, y)
    requires var r := ld.Define(kids, id, mode, Nonwhite(s + z), skip); r.Ok? && |r.rest| >= |z|
    requires !At(Nonwhite(s + z), '.')
    ensures IsTail(d, s) && Framed(d, z, y) && !At(Nonwhite(s + y), '.')
    ensures var r := ld.Define(kids, id, mode, Nonwhite(s + z), skip);
            r.rest == d + z && ld.Define(kids, id, mode, Nonwhite(s + y), skip) == Ok(r.value, d + y)
    decreases |s|, 2
  {
    hide Nonwhite, Loader.Body;
    NonwhiteRest(s + z);
    DefineRest(ld, kids, id, mode, Nonwhite(s + z), skip);
    var b := NonwhiteLocal(s, z, y);
    StopNext(z);
    BodyStops(ld, kids, id, mode, z, skip);
    if b == [] {
      d := [];
      assert false;
    } else if b[0] == '=' {
      FramedStep(b, z, y);
      NonwhiteRest(b[1..] + z);
      var c := NonwhiteLocal(b[1..], z, y);
      TailStep(c, b);
      d := BodyLocal(ld, kids, id, mode, c, z, y, skip);
      TailTrans(d, c, b);
    } else {
      BodyIncludes(ld, kids, id, mode, b[1..] + z, skip);
      d := BodyLocal(ld, kids, id, mode, b, z, y, skip);
    }
    TailTrans(d, b, s);
  }

  lemma DefineRest(ld: Loader, kids: seq<Node>, id: string, mode: Mode, n: Next, skip: bool)
    ensures |ld.Define(kids, id, mode, n, skip).rest| <= |Back(n)|
    ensures At(n, '=') && ld.Define(kids, id, mode, n, skip).Ok? ==>
              && Nonwhite(n.rest).Char?
              && ld.Define(kids, id, mode, n, skip) == ld.Body(kids, id, mode, Nonwhite(n.rest), skip)
              && |ld.Define(kids, id, mode, n, skip).rest| <= |Back(Nonwhite(n.rest))|
  {
    hide Nonwhite, Loader.Body;
  }

  lemma {:induction false} ParseDefLocal(ld: Loader, kids: seq<Node>, s: string, z: string, y: string, skip: bool)
    returns (d: string)
    requires Framed(s, z, y)
    requires var r := ld.ParseDef(kids, s + z, skip); r.Ok? && |r.rest| >= |z|
    ensures IsTail(d, s) && Framed(d, z, y) && |d| < |s|
    ensures var r := ld.ParseDef(kids, s + z, skip);
            r.rest == d + z && ld.ParseDef(kids, s + y, skip) == Ok(r.value, d + y)
    decreases |s|, 0
  {
    hide Nonwhite, Loader.Head, Loader.Define, Locate, Store;
    var (mode, id) := ld.Head(s + z).value;
    var h := HeadLocal(ld, s, z, y);
    var n := Nonwhite(h + z);
    if At(n, '.') {
      NonwhiteRest(h + z);
      var b := NonwhiteLocal(h, z, y);
      StopNext(z);
      FramedStep(b, z, y);
      d := DescendLocal(ld, kids, id, mode, b[1..], z, y, skip);
      TailStep(d, b);
      TailTrans(d, b, h);
    } else {
      d := DefineLocal(ld, kids, id, mode, h, z, y, skip);
    }
    TailTrans(d, h, s);
  }

  lemma DescendLocal(ld: Loader, kids: seq<Node>, id: string, mode: Mode, s: string, z: string, y: string, skip: bool)
    returns (d: string)
    requires Framed(s, z, y)
    requires var r := ld.Descend(kids, id, mode, s + z, skip); r.Ok? && |r.rest| >= |z|
    ensures IsTail(d, s) && Framed(d, z, y)
    ensures var r := ld.Descend(kids, id, mode, s + z, skip);
            r.rest == d + z && ld.Descend(kids, id, mode, s + y, skip) == Ok(r.value, d + y)
    decreases |s|, 2
  {
    hide Locate, Store, SlotKids, Loader.ParseDef;
    var slot := if skip then Skipped else Locate(kids, id, mode);
    if slot.Skipped? {
      d := ParseDefLocal(ld, kids, s, z, y, true);
    } else {
      d := ParseDefLocal(ld, SlotKids(kids, slot), s, z, y, false);
    }
  }

  /** The definitions in front of a stop. */
  lemma {:induction false} ParseDefsLocal(ld: Loader, kids: seq<Node>, s: string, z: string, y: string, skip: bool)
    returns (d: string)
    requires Framed(s, z, y)
    requires var r := ld.ParseDefs(kids, s + z, skip); r.Ok? && |r.rest| >= |z|
    ensures IsTail(d, s) && Framed(d, z, y)
    ensures var r := ld.ParseDefs(kids, s + z, skip);
            r.rest == d + z && ld.ParseDefs(kids, s + y, skip) == Ok(r.value, d + y)
    decreases |s|, 2
  {
    hide Nonwhite, Loader.ParseDef;
    NonwhiteRest(s + z);
    DefsRest(ld, kids, s + z, skip);
    var b := NonwhiteLocal(s, z, y);
    StopNext(z);
    StopNext(y);
    if b == [] || b[0] == '}' {
      d := b;
    } else {
      var c := ParseDefLocal(ld, kids, b, z, y, skip);
      var kids1 := ld.ParseDef(kids, b + z, skip).value;
      d := ParseDefsLocal(ld, kids1, c, z, y, skip);
      TailTrans(d, c, b);
      TailTrans(d, b, s);
    }
  }

  lemma DefsRest(ld: Loader, kids: seq<Node>, t: string, skip: bool)
    ensures ld.ParseDefs(kids, t, skip).Ok? ==> |ld.ParseDefs(kids, t, skip).rest| <= |Back(Nonwhite(t))|
    ensures ld.ParseDefs(kids, t, skip).Ok? && Nonwhite(t).Char? && Nonwhite(t).c != '}' ==>
              && ld.ParseDef(kids, Back(Nonwhite(t)), skip).Ok?
              && |ld.ParseDefs(kids, t, skip).rest| <= |ld.ParseDef(kids, Back(Nonwhite(t)), skip).rest|
  {
    hide Nonwhite, Loader.ParseDef;
  }

  lemma {:induction false} ItemsLocal(ld: Loader, kids: seq<Node>, s: string, z: string, y: string, idx: nat,
                                      skip: bool)
    returns (d: string)
    requires Framed(s, z, y)
    requires var r := ld.ParseArrayDefs(kids, s + z, idx, skip); r.Ok? && |r.rest| >= |z|
    ensures IsTail(d, s) && Framed(d, z, y)
    ensures var r := ld.ParseArrayDefs(kids, s + z, idx, skip);
            r.rest == d + z && ld.ParseArrayDefs(kids, s + y, idx, skip) == Ok(r.value, d + y)
    decreases |s|, 2
  {
    hide Nonwhite, Loader.ParseArrayDef;
    NonwhiteRest(s + z);
    ItemsRest(ld, kids, s + z, idx, skip);
    var b := NonwhiteLocal(s, z, y);
    StopNext(z);
    if b == [] {
      ItemStops(ld, kids, z, idx, skip);
      d := [];
      assert false;
    } else if b[0] == ']' {
      d := b;
    } else {
      var c := ItemLocal(ld, kids, b, z, y, idx, skip);
      var item := ld.ParseArrayDef(kids, b + z, idx, skip).value;
      d := ItemsLocal(ld, item.0, c, z, y, item.1 + 1, skip);
      TailTrans(d, c, b);
      TailTrans(d, b, s);
    }
  }

  lemma ItemStops(ld: Loader, kids: seq<Node>, z: string, idx: nat, skip: bool)
    requires Stop(z) && z != []
    ensures ld.ParseArrayDef(kids, z, idx, skip).Err?
  {
    hide Loader.ItemSlot;
    StopNext(z);
    StopString(z, false);
  }

  lemma ItemsRest(ld: Loader, kids: seq<Node>, t: string, idx: nat, skip: bool)
    ensures var r := ld.ParseArrayDefs(kids, t, idx, skip);
            r.Ok? ==> |r.rest| <= |Back(Nonwhite(t))| && Nonwhite(t).Char?
    ensures var r := ld.ParseArrayDefs(kids, t, idx, skip);
            r.Ok? && Nonwhite(t).c != ']' ==>
              && ld.ParseArrayDef(kids, Back(Nonwhite(t)), idx, skip).Ok?
              && |r.rest| <= |ld.ParseArrayDef(kids, Back(Nonwhite(t)), idx, skip).rest|
  {
    hide Nonwhite, Loader.ParseArrayDef;
  }

  lemma ItemLocal(ld: Loader, kids: seq<Node>, s: string, z: string, y: string, idx: nat, skip: bool)
    returns (d: string)
    requires Framed(s, z, y)
    requires var r := ld.ParseArrayDef(kids, s + z, idx, skip); r.Ok? && |r.rest| >= |z|
    ensures IsTail(d, s) && Framed(d, z, y) && |d| < |s|
    ensures var r := ld.ParseArrayDef(kids, s + z, idx, skip);
            r.rest == d + z && ld.ParseArrayDef(kids, s + y, idx, skip) == Ok(r.value, d + y)
    decreases |s|, 1
  {
    hide Nonwhite, GetString, Loader.ItemSlot, Loader.Scalar, Loader.ParseDefs, Loader.ParseArrayDefs, Decimal;
    NonwhiteRest(s + z);
    var b := NonwhiteLocal(s, z, y);
    StopNext(z);
    StopString(z, false);
    if b == [] {
      d := [];
      assert false;
    } else if b[0] == '{' || b[0] == '[' {
      FramedStep(b, z, y);
      var c;
      if b[0] == '{' {
        c := ParseDefsLocal(ld, [], b[1..], z, y, skip);
      } else {
        c := ItemsLocal(ld, [], b[1..], z, y, 0, skip);
      }
      TailStep(c, b);
      d := ClosesLocal(c, z, y, b[0]);
      TailTrans(d, c, b);
    } else {
      assert [b[0]] + (b[1..] + z) == b + z && [b[0]] + (b[1..] + y) == b + y;
      d := GetStringLocal(b, z, y, false);
    }
    TailTrans(d, b, s);
  }
}
