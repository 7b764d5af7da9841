/**
 The tokens of a configuration text (conf.c:746-1124) as functions of the text that is left to read.
 A character pushed back by unget_char is simply the first character of that text.
 */
module Lexer {

  const VT := '\U{0B}'
  const BS := '\U{08}'
  const FF := '\U{0C}'
  const NUL := '\U{00}'

  /** Error codes of the parser; IncludeDirective stands for a `<file>` directive, which this model does not open. */
  datatype Error = UnexpectedEof | UnexpectedChar | Invalid | NoEntry | IncludeDirective

  /** Every reading function returns the text it leaves unread, also when it fails. */
  datatype Res<+T> = Ok(value: T, rest: string) | Err(error: Error, rest: string)

  /** What get_nonwhite finds. */
  datatype Next = Eof | Include(rest: string) | Char(c: char, rest: string)

  predicate IsBlank(c: char) {
    c == ' ' || c == FF || c == '\t' || c == '\n' || c == '\r'
  }

  /** The text behind the end of a comment line. */
  function SkipComment(t: string): (r: string)
    ensures |r| <= |t|
  {
    if t == [] then []
    else if t[0] == '\n' then t[1..]
    else SkipComment(t[1..])
  }

  function Nonwhite(t: string): (n: Next)
    ensures !n.Eof? ==> |n.rest| < |t|
    decreases |t|
  {
    if t == [] then Eof
    else if t[0] == '<' then Include(t[1..])
    else if t[0] == '#' then Nonwhite(SkipComment(t[1..]))
    else if IsBlank(t[0]) then Nonwhite(t[1..])
    else Char(t[0], t[1..])
  }

  /** The text after what was found has been pushed back. */
  function Back(n: Next): string {
    match n
    case Eof => []
    case Include(r) => ['<'] + r
    case Char(c, r) => [c] + r
  }

  /** The text left when what was found stays consumed. */
  function Past(n: Next): string {
    if n.Eof? then [] else n.rest
  }

  function NextError(n: Next): Error {
    if n.Eof? then UnexpectedEof else if n.Include? then IncludeDirective else UnexpectedChar
  }

  predicate EndsFreeString(c: char, id: bool) {
    || (id && c == '.')
    || IsBlank(c)
    || c == '=' || c == ',' || c == ';' || c == '{' || c == '}' || c == '[' || c == ']'
    || c == '\'' || c == '"' || c == '\\' || c == '#'
  }

  /** Splits off the longest run of characters of a free string. */
  function FreeString(t: string, id: bool): (r: (string, string))
    ensures r.0 + r.1 == t
  {
    if t == [] || EndsFreeString(t[0], id) then ([], t)
    else
      var (s, rest) := FreeString(t[1..], id);
      ([t[0]] + s, rest)
  }

  /** get_hexachar counts a letter from 'a' or 'A' without adding ten. */
  function HexNibble(c: char): (v: nat)
    ensures v <= 9
  {
    if '0' <= c <= '9' then c as int - '0' as int
    else if 'a' <= c <= 'f' then c as int - 'a' as int
    else if 'A' <= c <= 'F' then c as int - 'A' as int
    else 0
  }

  function HexByte(t: string): (r: (nat, string))
    ensures r.0 < 256 && |r.1| <= |t|
  {
    if t == [] then (0, [])
    else if |t| == 1 then (16 * HexNibble(t[0]), [])
    else (16 * HexNibble(t[0]) + HexNibble(t[1]), t[2..])
  }

  predicate IsOctal(c: char) {
    '0' <= c <= '7'
  }

  /** Up to `more` further octal digits. */
  function OctalTail(t: string, num: nat, more: nat): (r: (nat, string))
    ensures |r.1| <= |t|
  {
    if more == 0 || t == [] || !IsOctal(t[0]) then (num, t)
    else OctalTail(t[1..], num * 8 + (t[0] as int - '0' as int), more - 1)
  }

  /** get_quotedchar: the number a backslash sequence stands for. */
  function QuotedChar(t: string): (r: Res<nat>)
    ensures r.Ok? ==> |r.rest| < |t|
    ensures |r.rest| <= |t|
  {
    if t == [] then Err(UnexpectedEof, [])
    else
      var c, u := t[0], t[1..];
      if c == 'n' then Ok(10, u)
      else if c == 't' then Ok(9, u)
      else if c == 'v' then Ok(11, u)
      else if c == 'b' then Ok(8, u)
      else if c == 'r' then Ok(13, u)
      else if c == 'f' then Ok(12, u)
      else if c == 'x' then var (v, rest) := HexByte(u); Ok(v, rest)
      else if IsOctal(c) then var (v, rest) := OctalTail(u, c as int - '0' as int, 2); Ok(v, rest)
      else Ok(c as int, u)
  }

  /** The low eight bits that a C char keeps. */
  function ToByte(v: nat): char {
    (v % 256) as char
  }

  function Prepend(s: string, r: Res<string>): Res<string> {
    match r
    case Ok(v, rest) => Ok(s + v, rest)
    case Err(_, _) => r
  }

  /** The characters up to the closing delimiter; a backslash sequence that means newline is dropped. */
  function DelimString(t: string, delim: char): (r: Res<string>)
    ensures r.Ok? ==> |r.rest| < |t|
    ensures |r.rest| <= |t|
    decreases |t|
  {
    if t == [] then Err(UnexpectedEof, [])
    else if t[0] == '\\' then
      match QuotedChar(t[1..])
      case Err(e, rest) => Err(e, rest)
      case Ok(v, rest) =>
        if v == 10 then DelimString(rest, delim)
        else Prepend([ToByte(v)], DelimString(rest, delim))
    else if t[0] == delim then Ok([], t[1..])
    else Prepend([t[0]], DelimString(t[1..], delim))
  }

  /** A C string ends at its first NUL. */
  function CString(s: string): (r: string)
    ensures NUL !in r
    ensures NUL !in s ==> r == s
  {
    if s == [] || s[0] == NUL then [] else [s[0]] + CString(s[1..])
  }

  datatype Token = Token(text: string, delimited: bool)

  predicate IsPunctuation(c: char) {
    || c == '=' || c == ',' || c == ';' || c == '.' || c == '{' || c == '}' || c == '[' || c == ']'
    || c == '\\'
  }

  predicate IsQuote(c: char) {
    c == '\'' || c == '"'
  }

  function GetString(t: string, id: bool): (r: Res<Token>)
    ensures r.Ok? ==> |r.rest| < |t|
    ensures |r.rest| <= |t|
  {
    match Nonwhite(t)
    case Eof => Err(UnexpectedEof, [])
    case Include(rest) => Err(IncludeDirective, rest)
    case Char(c, rest) =>
      if IsPunctuation(c) then Err(UnexpectedChar, rest)
      else if IsQuote(c) then
        match DelimString(rest, c)
        case Err(e, r) => Err(e, r)
        case Ok(s, r) => Ok(Token(CString(s), true), r)
      else
        NonwhiteStops(t);
        var (s, r) := FreeString([c] + rest, id);
        assert s[0] == c && |s| + |r| == 1 + |rest|;
        Ok(Token(CString(s), false), r)
  }

  /** What get_nonwhite stops at is neither blank nor the start of a comment or directive. */
  lemma {:induction false} NonwhiteStops(t: string)
    ensures Nonwhite(t).Char? ==>
              var c := Nonwhite(t).c;
              !IsBlank(c) && c != '#' && c != '<'
    decreases |t|
  {
    if t == [] || t[0] == '<' {
    } else if t[0] == '#' {
      NonwhiteStops(SkipComment(t[1..]));
    } else if IsBlank(t[0]) {
      NonwhiteStops(t[1..]);
    }
  }

  /** Pushing back what was found and looking again finds the same. */
  lemma NonwhiteBack(t: string)
    ensures Nonwhite(Back(Nonwhite(t))) == Nonwhite(t)
  {
    NonwhiteStops(t);
    var n := Nonwhite(t);
    if !n.Eof? {
      assert Back(n)[1..] == n.rest;
    }
  }

  lemma {:induction false} NonwhiteSkipsBlanks(b: string, t: string)
    requires forall i :: 0 <= i < |b| ==> IsBlank(b[i])
    ensures Nonwhite(b + t) == Nonwhite(t)
  {
    if b == [] {
      assert b + t == t;
    } else {
      assert (b + t)[1..] == b[1..] + t;
      NonwhiteSkipsBlanks(b[1..], t);
    }
  }

  /** What may follow a token: the end of the text or a character that ends a free string. */
  predicate Separated(t: string, id: bool) {
    t == [] || EndsFreeString(t[0], id)
  }

  predicate FreeChars(s: string, id: bool) {
    forall i :: 0 <= i < |s| ==> !EndsFreeString(s[i], id)
  }

  lemma {:induction false} FreeStringOf(s: string, id: bool, t: string)
    requires FreeChars(s, id)
    requires Separated(t, id)
    ensures FreeString(s + t, id) == (s, t)
  {
    if s == [] {
      assert s + t == t;
    } else {
      assert (s + t)[1..] == s[1..] + t;
      FreeStringOf(s[1..], id, t);
      assert (s + t)[0] == s[0] && s == [s[0]] + s[1..];
    }
  }

  lemma {:induction false} NonwhiteShort(t: string)
    ensures |Back(Nonwhite(t))| <= |t|
    decreases |t|
  {
    if t != [] {
      if t[0] == '#' {
        NonwhiteShort(SkipComment(t[1..]));
      } else if IsBlank(t[0]) {
        NonwhiteShort(t[1..]);
      }
    }
  }
}
