/** string_print (conf.c:1533-1623): how an id or a string value is written. */
module TokenPrinter {
  import opened Lexer
  import opened Numbers

  /** Characters that make string_print quote the text they occur in. */
  predicate NeedsQuote(c: char) {
    || c <= '\U{1F}' || c >= '\U{7F}'
    || c == ' ' || c == '=' || c == ';' || c == ',' || c == '.' || c == '{' || c == '}'
    || c == '[' || c == ']' || c == '\'' || c == '"' || c == '*' || c == '#'
  }

  predicate Quoted(s: string, id: bool) {
    || s == []
    || (!id && (IsDigit(s[0]) || s[0] == '-'))
    || exists i :: 0 <= i < |s| && NeedsQuote(s[i])
  }

  function QuoteFor(s: string): (q: char)
    ensures IsQuote(q)
  {
    if '\'' in s then '"' else '\''
  }

  function OctalDigit(v: nat): (c: char)
    ensures IsOctal(c)
  {
    ('0' as int + v % 8) as char
  }

  /** `\%04o`: four digits, the first of which is zero for every byte. */
  function OctalEscape(c: char): string {
    var v := c as int;
    ['\\', OctalDigit(v / 512), OctalDigit(v / 64), OctalDigit(v / 8), OctalDigit(v)]
  }

  function EscapeChar(c: char, q: char): string {
    if c == '\n' then "\\n"
    else if c == '\t' then "\\t"
    else if c == VT then "\\v"
    else if c == BS then "\\b"
    else if c == '\r' then "\\r"
    else if c == FF then "\\f"
    else if c == q then ['\\', c]
    else if ' ' <= c <= '~' then [c]
    else OctalEscape(c)
  }

  function Escape(s: string, q: char): string {
    if s == [] then [] else EscapeChar(s[0], q) + Escape(s[1..], q)
  }

  function StringPrint(s: string, id: bool): string {
    if s == [] then "''"
    else if Quoted(s, id) then
      var q := QuoteFor(s);
      [q] + Escape(s, q) + [q]
    else s
  }
}
