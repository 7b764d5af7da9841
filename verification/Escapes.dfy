/** Hexadecimal escapes (conf.c:894-907), which count a letter from zero. */
module Escapes {
  import opened Numbers
  import opened Lexer

  predicate IsHexDigit(c: char) {
    DigitValue(c) < 16
  }

  /** The byte that two hexadecimal digits mean. */
  function HexMeaning(a: char, b: char): nat {
    16 * DigitValue(a) + DigitValue(b)
  }

  /** The escape means the byte exactly when neither digit is a letter. */
  lemma HexIff(a: char, b: char, t: string)
    requires IsHexDigit(a) && IsHexDigit(b)
    ensures HexByte([a, b] + t).0 == HexMeaning(a, b) <==> IsDigit(a) && IsDigit(b)
    ensures HexByte([a, b] + t).1 == t
  {
  }

  /** A quoted text that goes on with the byte v; a newline is dropped. */
  function WithByte(v: nat, r: Res<string>): Res<string> {
    if v == 10 then r else Prepend([ToByte(v)], r)
  }

  lemma HexInString(a: char, b: char, t: string, delim: char)
    ensures DelimString(['\\', 'x', a, b] + t, delim) == WithByte(HexByte([a, b] + t).0, DelimString(t, delim))
  {
    var s := ['\\', 'x', a, b] + t;
    assert s[1..] == ['x', a, b] + t && s[1..][1..] == [a, b] + t && ([a, b] + t)[2..] == t;
    assert QuotedChar(s[1..]) == Ok(HexByte([a, b] + t).0, t);
  }

  lemma WithByteDiffers(v: nat, w: nat, r: Res<string>)
    requires v < 256 && w < 256 && r.Ok?
    ensures WithByte(v, r) == WithByte(w, r) <==> v == w
  {
    if v != 10 && w != 10 && WithByte(v, r) == WithByte(w, r) {
      assert WithByte(v, r).value[0] == WithByte(w, r).value[0];
    }
  }

  /** In a quoted text that closes, the escape stands for its byte exactly when neither digit is a letter. */
  lemma HexReadIff(a: char, b: char, t: string, delim: char)
    requires IsHexDigit(a) && IsHexDigit(b) && DelimString(t, delim).Ok?
    ensures DelimString(['\\', 'x', a, b] + t, delim) == WithByte(HexMeaning(a, b), DelimString(t, delim))
            <==> IsDigit(a) && IsDigit(b)
  {
    hide DelimString;
    HexInString(a, b, t, delim);
    HexIff(a, b, t);
    WithByteDiffers(HexByte([a, b] + t).0, HexMeaning(a, b), DelimString(t, delim));
  }
}
