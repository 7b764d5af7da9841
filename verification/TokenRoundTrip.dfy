/**
 Reading back what string_print wrote: exactly which texts survive, and that reading stops exactly
 behind them.
 */
module TokenRoundTrip {
  import opened Lexer
  import opened Numbers
  import opened TokenPrinter

  /** A character with a letter escape that the reader understands. */
  predicate LetterEscaped(c: char) {
    c == '\t' || c == VT || c == BS || c == '\r' || c == FF
  }

  /** Characters that survive printing and reading. */
  predicate Plain(c: char) {
    LetterEscaped(c) || (' ' <= c <= '~' && c != '\\')
  }

  /** The texts that survive printing and reading. */
  predicate Survives(s: string, id: bool) {
    && (forall i :: 0 <= i < |s| ==> Plain(s[i]))
    && (!Quoted(s, id) ==> s[0] != '<')
  }

  /** Printing, then reading up to any separator, gives the text back and leaves the separator and all behind it. */
  ghost predicate RoundTrips(s: string, id: bool) {
    forall t | Separated(t, id) ::
      GetString(StringPrint(s, id) + t, id) == Ok(Token(s, Quoted(s, id)), t)
  }

  lemma DelimSequence(l: char, c: char, q: char, u: string)
    requires QuotedChar([l] + u) == Ok(c as int, u) && c != '\n' && c <= '\U{FF}'
    ensures DelimString(['\\', l] + u, q) == Prepend([c], DelimString(u, q))
  {
    assert (['\\', l] + u)[1..] == [l] + u;
  }

  /** The sequence printed for a character means that character. */
  lemma SequenceMeans(c: char, q: char, u: string)
    requires Plain(c) && IsQuote(q) && |EscapeChar(c, q)| != 1
    ensures EscapeChar(c, q) == ['\\', EscapeChar(c, q)[1]]
    ensures QuotedChar([EscapeChar(c, q)[1]] + u) == Ok(c as int, u)
  {
    assert ([EscapeChar(c, q)[1]] + u)[1..] == u;
  }

  /** One printed character, read back in front of any text. */
  lemma ReadEscapeChar(c: char, q: char, u: string)
    requires Plain(c) && IsQuote(q)
    ensures DelimString(EscapeChar(c, q) + u, q) == Prepend([c], DelimString(u, q))
  {
    if |EscapeChar(c, q)| != 1 {
      SequenceMeans(c, q, u);
      DelimSequence(EscapeChar(c, q)[1], c, q, u);
    } else {
      assert EscapeChar(c, q) == [c] && ([c] + u)[1..] == u;
    }
  }

  lemma {:induction false} DelimStringOfEscape(s: string, q: char, t: string)
    requires forall i :: 0 <= i < |s| ==> Plain(s[i])
    requires IsQuote(q)
    ensures DelimString(Escape(s, q) + [q] + t, q) == Ok(s, t)
  {
    if s == [] {
      assert Escape(s, q) + [q] + t == [q] + t;
    } else {
      var u := Escape(s[1..], q) + [q] + t;
      assert Escape(s, q) + [q] + t == EscapeChar(s[0], q) + u;
      ReadEscapeChar(s[0], q, u);
      DelimStringOfEscape(s[1..], q, t);
      assert s == [s[0]] + s[1..];
    }
  }

  lemma QuotedToken(q: char, body: string, id: bool)
    requires IsQuote(q)
    ensures GetString([q] + body, id) ==
            match DelimString(body, q)
            case Ok(s, rest) => Ok(Token(CString(s), true), rest)
            case Err(e, rest) => Err(e, rest)
  {
    assert ([q] + body)[1..] == body;
    assert Nonwhite([q] + body) == Char(q, body);
  }

  lemma FreeToken(s: string, id: bool, t: string)
    requires s != [] && NUL !in s && s[0] != '<' && !IsPunctuation(s[0]) && Separated(t, id)
    requires forall i :: 0 <= i < |s| ==> !EndsFreeString(s[i], id)
    ensures Nonwhite(s + t) == Char((s + t)[0], (s + t)[1..])
    ensures GetString(s + t, id) == Ok(Token(s, false), t)
  {
    FreeStringOf(s, id, t);
    assert [(s + t)[0]] + (s + t)[1..] == s + t;
  }

  lemma UnquotedChars(s: string, id: bool)
    requires Survives(s, id) && !Quoted(s, id)
    ensures s != [] && NUL !in s && s[0] != '<' && !IsPunctuation(s[0])
    ensures forall i :: 0 <= i < |s| ==> !EndsFreeString(s[i], id)
  {
    forall i | 0 <= i < |s|
      ensures !EndsFreeString(s[i], id) && s[i] != NUL
    {
      assert !NeedsQuote(s[i]) && Plain(s[i]);
    }
    assert !NeedsQuote(s[0]) && Plain(s[0]);
  }

  /** The forward half: every text of the domain comes back. */
  lemma TokenComesBack(s: string, id: bool, t: string)
    requires Survives(s, id) && Separated(t, id)
    ensures GetString(StringPrint(s, id) + t, id) == Ok(Token(s, Quoted(s, id)), t)
  {
    if Quoted(s, id) {
      var q := QuoteFor(s);
      assert StringPrint(s, id) + t == [q] + (Escape(s, q) + [q] + t);
      DelimStringOfEscape(s, q, t);
      assert NUL !in s;
      QuotedToken(q, Escape(s, q) + [q] + t, id);
    } else {
      UnquotedChars(s, id);
      FreeToken(s, id, t);
    }
  }

  // ----- the converse: a weight that reading never raises and that bad characters lower

  function Weight(c: char): nat {
    if c == NUL then 0
    else if c == '\\' then 600
    else if LetterEscaped(c) || c == '\n' then 2
    else if ' ' <= c <= '~' then 1
    else 5 + 2 * (c as int)
  }

  function TextWeight(s: string): nat {
    if s == [] then 0 else Weight(s[0]) + TextWeight(s[1..])
  }

  /** The bytes of a C string. */
  predicate IsCString(s: string) {
    forall i :: 0 <= i < |s| ==> NUL < s[i] <= '\U{FF}'
  }

  predicate HasBad(s: string) {
    exists i :: 0 <= i < |s| && !Plain(s[i])
  }

  lemma {:induction false} TextWeightConcat(a: string, b: string)
    ensures TextWeight(a + b) == TextWeight(a) + TextWeight(b)
  {
    if a == [] {
      assert a + b == b;
    } else {
      assert (a + b)[1..] == a[1..] + b;
      TextWeightConcat(a[1..], b);
    }
  }

  lemma {:induction false} CStringWeight(s: string)
    ensures TextWeight(CString(s)) <= TextWeight(s)
  {
    if s != [] && s[0] != NUL {
      CStringWeight(s[1..]);
      assert CString(s)[1..] == CString(s[1..]);
    }
  }

  lemma BadSplit(s: string)
    requires s != []
    ensures HasBad(s) <==> !Plain(s[0]) || HasBad(s[1..])
  {
    if HasBad(s) && Plain(s[0]) {
      var i :| 0 <= i < |s| && !Plain(s[i]);
      assert s[1..][i - 1] == s[i];
    }
    if HasBad(s[1..]) {
      var i :| 0 <= i < |s[1..]| && !Plain(s[1..][i]);
      assert s[i + 1] == s[1..][i];
    }
  }

  /** The escaped text of s, closed by q. */
  function Body(s: string, q: char): string {
    Escape(s, q) + [q]
  }

  lemma BodyCons(s: string, q: char)
    requires s != []
    ensures Body(s, q) == EscapeChar(s[0], q) + Body(s[1..], q)
  {
  }

  /** Prepending characters that are printed as they are. */
  lemma {:induction false} BodyOrdinary(w: string, s: string, q: char)
    requires forall i :: 0 <= i < |w| ==> ' ' <= w[i] <= '~' && w[i] != q
    ensures Body(w + s, q) == w + Body(s, q)
  {
    if w == [] {
      assert w + s == s && w + Body(s, q) == Body(s, q);
    } else {
      hide Escape;
      assert (w + s)[1..] == w[1..] + s && (w + s)[0] == w[0];
      BodyOrdinary(w[1..], s, q);
      BodyCons(w + s, q);
      assert EscapeChar(w[0], q) == [w[0]];
      assert [w[0]] + (w[1..] + Body(s, q)) == w + Body(s, q);
    }
  }

  /** Reading the body to its very end yields a text no heavier, and a lighter one if there is a bad character. */
  ghost predicate Lightens(s: string, q: char) {
    var r := DelimString(Body(s, q), q);
    r.Ok? && r.rest == [] ==>
      && TextWeight(r.value) <= TextWeight(s)
      && (HasBad(s) ==> TextWeight(r.value) < TextWeight(s))
  }

  lemma {:induction false} OrdinaryWeight(w: string)
    requires forall i :: 0 <= i < |w| ==> ' ' <= w[i] <= '~' && w[i] != '\\'
    ensures TextWeight(w) == |w|
  {
    if w != [] {
      OrdinaryWeight(w[1..]);
    }
  }

  lemma EscapeTail(c: char, q: char)
    requires IsQuote(q) && NUL < c <= '\U{FF}' && c != q
    ensures var e := EscapeChar(c, q);
            && e != [] && |e| - 1 < Weight(c)
            && forall i :: 1 <= i < |e| ==> ' ' <= e[i] <= '~' && e[i] != '\\' && e[i] != q
  {
  }

  /** Dropping one character of a body leaves the body of a text no heavier. */
  lemma DropOne(s: string, q: char) returns (s': string)
    requires IsQuote(q) && IsCString(s) && s != [] && s[0] != q
    ensures IsCString(s') && Body(s, q)[1..] == Body(s', q)
    ensures TextWeight(s') < TextWeight(s) && |Body(s', q)| < |Body(s, q)|
  {
    EscapeTail(s[0], q);
    s' := DropFrom(EscapeChar(s[0], q), s, q);
  }

  lemma DropFrom(e: string, s: string, q: char) returns (s': string)
    requires IsCString(s) && s != [] && e == EscapeChar(s[0], q) && e != [] && |e| - 1 < Weight(s[0])
    requires forall i :: 1 <= i < |e| ==> ' ' <= e[i] <= '~' && e[i] != '\\' && e[i] != q
    ensures IsCString(s') && Body(s, q)[1..] == Body(s', q)
    ensures TextWeight(s') < TextWeight(s) && |Body(s', q)| < |Body(s, q)|
  {
    var w, u := e[1..], s[1..];
    s' := w + u;
    BodyCons(s, q);
    assert (e + Body(u, q))[1..] == w + Body(u, q);
    BodyOrdinary(w, u, q);
    OrdinaryWeight(w);
    TextWeightConcat(w, u);
  }

  lemma {:induction false} OctalTailOfBody(s: string, q: char, num: nat, more: nat) returns (s': string)
    requires IsQuote(q) && IsCString(s)
    ensures OctalTail(Body(s, q), num, more).1 == Body(s', q) && IsCString(s')
    ensures TextWeight(s') <= TextWeight(s) && |Body(s', q)| <= |Body(s, q)|
    decreases more
  {
    s' := s;
    if s != [] && more > 0 {
      BodyCons(s, q);
      if IsOctal(s[0]) {
        assert Body(s, q)[1..] == Body(s[1..], q);
        s' := OctalTailOfBody(s[1..], q, num * 8 + (s[0] as int - '0' as int), more - 1);
      }
    }
  }

  /** Two characters of a body consumed unseen, as get_hexachar does. */
  lemma DropTwo(u: string, q: char) returns (u': string)
    requires IsQuote(q) && IsCString(u)
    requires var rest := HexByte(Body(u, q)).1; rest != [] && rest[0] != q
    ensures HexByte(Body(u, q)).1 == Body(u', q) && IsCString(u')
    ensures TextWeight(u') <= TextWeight(u) && |Body(u', q)| < |Body(u, q)|
  {
    if u[0] == q {
      BodyCons(u, q);
      u' := u[1..];
    } else {
      var u1 := DropOne(u, q);
      if u1[0] == q {
        BodyCons(u1, q);
        assert false;
      }
      u' := DropOne(u1, q);
    }
  }

  /** What a decoded number adds to the weight of the text read. */
  function DecodedWeight(v: nat): (w: nat)
    ensures w < 601
  {
    if v == 10 then 0 else Weight(ToByte(v))
  }

  /**
   The first backslash sequence of a body read down to `rest`; `left` is what is still to be read, if it is a body.
   */
  ghost predicate Decodes(s: string, q: char, v: nat, left: Option<string>) {
    && s != []
    && var r := QuotedChar(Body(s, q)[1..]);
    && Body(s, q)[0] == '\\' && r.Ok? && r.value == v
    && match left
       case Some(s') =>
         && r.rest == Body(s', q) && IsCString(s') && |Body(s', q)| < |Body(s, q)|
         && DecodedWeight(v) + TextWeight(s') < TextWeight(s)
       case None =>
         r.rest == [] || (r.rest[0] == q && DecodedWeight(v) < TextWeight(s)) || (r.rest[0] == q && |r.rest| > 1)
  }

  /** A decoded character in front of a body. */
  lemma DecodesTo(s: string, q: char, t: string, v: nat, s': string)
    requires s != [] && Body(s, q) == ['\\'] + t && QuotedChar(t) == Ok(v, Body(s', q)) && IsCString(s')
    requires DecodedWeight(v) + TextWeight(s') < TextWeight(s)
    ensures Decodes(s, q, v, Some(s'))
  {
    assert Body(s, q)[1..] == t;
  }

  lemma QuotedBackslash(b: string)
    requires b != [] && b[0] == '\\'
    ensures QuotedChar(b) == Ok(92, b[1..])
  {
  }

  lemma LongEscape(s: string, q: char)
    requires s != [] && |EscapeChar(s[0], q)| > 1
    ensures Body(s, q) != [] && Body(s, q)[0] == '\\'
    ensures s[0] == q && IsQuote(q) ==> Body(s, q)[1..] == [q] + Body(s[1..], q)
  {
    hide Escape;
    BodyCons(s, q);
  }

  /** A backslash in front of a character that is itself printed as a sequence. */
  lemma BackslashBeforeEscape(s: string, q: char) returns (v: nat, left: Option<string>)
    requires IsQuote(q) && IsCString(s) && |s| > 1 && s[0] == '\\' && |EscapeChar(s[1], q)| > 1
    ensures Decodes(s, q, v, left)
  {
    var t := s[1..];
    BodyCons(s, q);
    assert Body(s, q) == ['\\'] + Body(t, q) && Body(s, q)[1..] == Body(t, q);
    LongEscape(t, q);
    QuotedBackslash(Body(t, q));
    v := 92;
    if t[0] == q {
      left := None;
    } else {
      var s' := DropOne(t, q);
      left := Some(s');
      DecodesTo(s, q, Body(t, q), v, s');
    }
  }

  /** What is left to read is the body of a text no heavier than u, or it ends or closes here. */
  ghost predicate Leaves(rest: string, u: string, q: char, left: Option<string>) {
    match left
    case None => rest == [] || rest[0] == q
    case Some(s') =>
      && rest == Body(s', q) && IsCString(s')
      && TextWeight(s') <= TextWeight(u) && |Body(s', q)| <= |Body(u, q)|
  }

  lemma HexLeaves(u: string, q: char) returns (left: Option<string>)
    requires IsQuote(q) && IsCString(u)
    ensures Leaves(HexByte(Body(u, q)).1, u, q, left)
  {
    var rest := HexByte(Body(u, q)).1;
    left := None;
    if rest != [] && rest[0] != q {
      var s' := DropTwo(u, q);
      left := Some(s');
    }
  }

  /** What get_quotedchar takes from an ordinary character and the body behind it. */
  lemma QuotedOrdinary(c: char, u: string, q: char) returns (left: Option<string>)
    requires IsQuote(q) && IsCString(u) && c != q && c != '\n'
    ensures var r := QuotedChar([c] + Body(u, q));
            r.Ok? && Leaves(r.rest, u, q, left)
  {
    hide Escape, TextWeight, OctalTail, HexByte;
    assert ([c] + Body(u, q))[1..] == Body(u, q);
    if c == 'x' {
      left := HexLeaves(u, q);
    } else if IsOctal(c) {
      var s' := OctalTailOfBody(u, q, c as int - '0' as int, 2);
      left := Some(s');
    } else {
      left := Some(u);
    }
  }

  /** A backslash in front of a character that is printed as it is. */
  lemma BackslashBeforeOrdinary(s: string, q: char) returns (v: nat, left: Option<string>)
    requires IsQuote(q) && IsCString(s) && |s| > 1 && s[0] == '\\' && |EscapeChar(s[1], q)| == 1
    ensures Decodes(s, q, v, left)
  {
    var t, u := s[1..], s[2..];
    BodyCons(s, q);
    BodyCons(t, q);
    assert t[1..] == u;
    assert Body(s, q)[1..] == Body(t, q) == [s[1]] + Body(u, q);
    assert TextWeight(s) >= 601 + TextWeight(u);
    left := QuotedOrdinary(s[1], u, q);
    v := QuotedChar([s[1]] + Body(u, q)).value;
  }

  lemma BackslashAlone(q: char)
    requires IsQuote(q)
    ensures Decodes(['\\'], q, q as int, None)
  {
    BodyCons(['\\'], q);
    assert Body(['\\'], q) == ['\\', q];
  }

  lemma ThreeOctalDigits(a: char, b: char, t: string)
    requires IsOctal(a) && IsOctal(b)
    ensures QuotedChar(['0', a, b] + t) == Ok((a as int - '0' as int) * 8 + (b as int - '0' as int), t)
  {
    var u := ['0', a, b] + t;
    assert u[1..] == [a, b] + t;
    assert u[1..][1..] == [b] + t;
    assert u[1..][1..][1..] == t;
    assert OctalTail(u[1..][1..], a as int - '0' as int, 1)
        == ((a as int - '0' as int) * 8 + (b as int - '0' as int), t);
  }

  /** A character printed in octal comes back as its upper digits followed by its last one. */
  lemma OctalRead(c: char, b: string)
    requires c <= '\U{FF}'
    ensures QuotedChar(OctalEscape(c)[1..] + b) == Ok(c as int / 8, [OctalDigit(c as int)] + b)
  {
    var e := OctalEscape(c);
    ThreeOctalDigits(e[2], e[3], [e[4]] + b);
    assert e[1..] + b == ['0', e[2], e[3]] + ([e[4]] + b);
  }

  lemma OctalWeight(c: char)
    requires NUL < c <= '\U{FF}' && !Plain(c) && c != '\\' && c != '\n'
    ensures DecodedWeight(c as int / 8) + 1 < Weight(c)
    ensures forall q | IsQuote(q) :: EscapeChar(c, q) == OctalEscape(c)
  {
  }

  lemma OctalDecodes(s: string, q: char) returns (v: nat, left: Option<string>)
    requires IsQuote(q) && IsCString(s) && s != [] && !Plain(s[0]) && s[0] != '\\' && s[0] != '\n'
    ensures Decodes(s, q, v, left)
  {
    var c, u := s[0], s[1..];
    OctalWeight(c);
    OctalBody(s, q);
    OctalRead(c, Body(u, q));
    v := c as int / 8;
    var s' := [OctalDigit(c as int)] + u;
    left := Some(s');
    DecodesTo(s, q, OctalEscape(c)[1..] + Body(u, q), v, s');
  }

  lemma OctalBody(s: string, q: char)
    requires IsQuote(q) && IsCString(s) && s != [] && EscapeChar(s[0], q) == OctalEscape(s[0])
    ensures Body(s, q) == ['\\'] + (OctalEscape(s[0])[1..] + Body(s[1..], q))
    ensures var s' := [OctalDigit(s[0] as int)] + s[1..];
            && Body(s', q) == [OctalDigit(s[0] as int)] + Body(s[1..], q)
            && IsCString(s') && TextWeight(s') == 1 + TextWeight(s[1..])
  {
    BodyCons(s, q);
    BodyOrdinary([OctalDigit(s[0] as int)], s[1..], q);
    assert ([OctalDigit(s[0] as int)] + s[1..])[1..] == s[1..];
  }

  lemma BadDecodes(s: string, q: char) returns (v: nat, left: Option<string>)
    requires IsQuote(q) && IsCString(s) && s != [] && !Plain(s[0])
    ensures Decodes(s, q, v, left)
  {
    if s[0] == '\\' {
      if |s| == 1 {
        assert s == ['\\'];
        BackslashAlone(q);
        v, left := q as int, None;
      } else if |EscapeChar(s[1], q)| > 1 {
        v, left := BackslashBeforeEscape(s, q);
      } else {
        v, left := BackslashBeforeOrdinary(s, q);
      }
    } else if s[0] == '\n' {
      BodyCons(s, q);
      assert Body(s, q)[1..] == ['n'] + Body(s[1..], q);
      assert (['n'] + Body(s[1..], q))[1..] == Body(s[1..], q);
      v, left := 10, Some(s[1..]);
    } else {
      v, left := OctalDecodes(s, q);
    }
  }

  lemma {:induction false} ReadingLightens(s: string, q: char)
    requires IsQuote(q) && IsCString(s)
    ensures Lightens(s, q)
    decreases |Body(s, q)|
  {
    if s == [] {
    } else if Plain(s[0]) {
      BodyCons(s, q);
      ReadEscapeChar(s[0], q, Body(s[1..], q));
      EscapeNonEmpty(s[0], q);
      ReadingLightens(s[1..], q);
      BadSplit(s);
      var r := DelimString(Body(s[1..], q), q);
      if r.Ok? {
        assert ([s[0]] + r.value)[1..] == r.value;
      }
    } else {
      var v, left := BadDecodes(s, q);
      var rest := QuotedChar(Body(s, q)[1..]).rest;
      if left.Some? {
        ReadingLightens(left.value, q);
      }
      var r := DelimString(rest, q);
      if r.Ok? {
        assert ([ToByte(v)] + r.value)[1..] == r.value;
      }
    }
  }

  lemma EscapeNonEmpty(c: char, q: char)
    ensures EscapeChar(c, q) != []
  {
  }

  /** A quoted text with a bad character does not come back. */
  lemma QuotedFails(s: string, id: bool)
    requires IsCString(s) && Quoted(s, id) && HasBad(s)
    ensures !RoundTrips(s, id)
  {
    var q := QuoteFor(s);
    assert StringPrint(s, id) + [] == [q] + Body(s, q);
    ReadingLightens(s, q);
    QuotedToken(q, Body(s, q), id);
    var r := DelimString(Body(s, q), q);
    if r.Ok? {
      CStringWeight(r.value);
    }
    assert Separated([], id);
  }

  /** An unquoted text with a backslash or a leading '<' does not come back. */
  lemma UnquotedFails(s: string, id: bool)
    requires IsCString(s) && !Quoted(s, id) && !Survives(s, id)
    ensures !RoundTrips(s, id)
  {
    assert StringPrint(s, id) + [] == s && Separated([], id);
    assert !NeedsQuote(s[0]);
    if s[0] != '<' {
      var i :| 0 <= i < |s| && !Plain(s[i]);
      assert !NeedsQuote(s[i]);
      assert s[i] == '\\';
      FreeStringShort(s, id, i);
      BackslashStops(s, id);
    }
  }

  lemma BackslashStops(s: string, id: bool)
    requires s != [] && !NeedsQuote(s[0]) && s[0] != '<' && FreeString(s, id).1 != []
    ensures GetString(s, id).Ok? ==> GetString(s, id).rest != []
  {
    assert s == [s[0]] + s[1..];
  }

  lemma {:induction false} FreeStringShort(s: string, id: bool, i: nat)
    requires i < |s| && s[i] == '\\'
    ensures FreeString(s, id).1 != []
  {
    if i > 0 {
      assert s[1..][i - 1] == s[i];
      FreeStringShort(s[1..], id, i - 1);
    }
  }

  /** Exactly the texts of the domain survive, for every C string. */
  lemma RoundTripsIff(s: string, id: bool)
    requires IsCString(s)
    ensures RoundTrips(s, id) <==> Survives(s, id)
  {
    if Survives(s, id) {
      forall t | Separated(t, id)
        ensures GetString(StringPrint(s, id) + t, id) == Ok(Token(s, Quoted(s, id)), t)
      {
        TokenComesBack(s, id, t);
      }
    } else if Quoted(s, id) {
      assert HasBad(s);
      QuotedFails(s, id);
    } else {
      UnquotedFails(s, id);
    }
  }
}
