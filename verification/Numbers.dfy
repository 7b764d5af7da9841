/**
 Integers as text: what `%ld` prints and what `strtoll` with base 0 reads.
 */
module Numbers {

  datatype Option<+T> = None | Some(value: T)

  const INT_MAX := 0x7FFF_FFFF
  const INT_MIN := -0x8000_0000
  const LLONG_MAX := 0x7FFF_FFFF_FFFF_FFFF
  const LLONG_MIN := -0x8000_0000_0000_0000

  predicate InLong(i: int) {
    LLONG_MIN <= i <= LLONG_MAX
  }

  predicate IsDigit(c: char) {
    '0' <= c <= '9'
  }

  function DigitChar(d: nat): char
    requires d < 10
  {
    ('0' as int + d) as char
  }

  /** `%d` of a non-negative number. */
  function Decimal(n: nat): (s: string)
    ensures s != [] && forall i :: 0 <= i < |s| ==> IsDigit(s[i])
    ensures s[0] == '0' <==> n == 0
    ensures n == 0 ==> s == "0"
  {
    if n < 10 then [DigitChar(n)] else Decimal(n / 10) + [DigitChar(n % 10)]
  }

  /** `%ld` and `%lld`. */
  function PrintInt(i: int): (s: string)
    ensures s != [] && (s[0] == '-' || IsDigit(s[0]))
  {
    if i < 0 then "-" + Decimal(-i) else Decimal(i)
  }

  /** The value of a digit in the bases `strtoll` meets here; 16 for anything else. */
  function DigitValue(c: char): (d: nat)
    ensures d <= 16
  {
    if IsDigit(c) then c as int - '0' as int
    else if 'a' <= c <= 'f' then c as int - 'a' as int + 10
    else if 'A' <= c <= 'F' then c as int - 'A' as int + 10
    else 16
  }

  /** Accumulates the longest run of digits below `base`. */
  function ReadDigits(s: string, base: nat, acc: nat): (r: (nat, string))
    ensures |r.1| <= |s|
  {
    if s == [] || DigitValue(s[0]) >= base then (acc, s)
    else ReadDigits(s[1..], base, acc * base + DigitValue(s[0]))
  }

  predicate IsSpace(c: char) {
    c == ' ' || '\t' <= c <= '\r'
  }

  function SkipSpace(s: string): (r: string)
    ensures |r| <= |s|
  {
    if s != [] && IsSpace(s[0]) then SkipSpace(s[1..]) else s
  }

  /** An unsigned number with the base taken from its prefix; None when there is no digit. */
  function ReadMagnitude(s: string): (r: Option<(nat, string)>)
    ensures r.Some? ==> |r.value.1| < |s|
  {
    if s == [] || !IsDigit(s[0]) then None
    else if |s| > 2 && s[0] == '0' && (s[1] == 'x' || s[1] == 'X') && DigitValue(s[2]) < 16 then
      Some(ReadDigits(s[2..], 16, 0))
    else if s[0] == '0' then Some(ReadDigits(s[1..], 8, 0))
    else
      Some(ReadDigits(s[1..], 10, DigitValue(s[0])))
  }

  /** What strtoll(s, &end, 0) leaves behind. */
  datatype Scan = Scan(value: int, end: string, overflow: bool)

  function Strtoll(s: string): (r: Scan)
    ensures InLong(r.value)
    ensures |r.end| <= |s|
  {
    var t := SkipSpace(s);
    var neg := t != [] && t[0] == '-';
    var u := if t != [] && (t[0] == '-' || t[0] == '+') then t[1..] else t;
    match ReadMagnitude(u)
    case None => Scan(0, s, false)
    case Some((m, end)) =>
      var v := if neg then -(m as int) else m as int;
      if v > LLONG_MAX then Scan(LLONG_MAX, end, true)
      else if v < LLONG_MIN then Scan(LLONG_MIN, end, true)
      else Scan(v, end, false)
  }

  /** safe_strtoll: the whole string is one number that fits. */
  function SafeStrtoll(s: string): (r: Option<int>)
    ensures r.Some? ==> InLong(r.value)
  {
    var n := Strtoll(s);
    if s == [] || n.overflow || n.end != [] then None else Some(n.value)
  }

  lemma {:induction false} ReadDecimal(n: nat, t: string)
    ensures ReadDigits(Decimal(n) + t, 10, 0) == ReadDigits(t, 10, n)
  {
    if n < 10 {
      assert (Decimal(n) + t)[1..] == t;
    } else {
      var d := [DigitChar(n % 10)];
      assert Decimal(n) + t == Decimal(n / 10) + (d + t);
      ReadDecimal(n / 10, d + t);
      assert (d + t)[1..] == t;
    }
  }

  /** The text after a printed number must not continue it. */
  predicate EndsNumber(t: string) {
    t == [] || (!IsDigit(t[0]) && t[0] != 'x' && t[0] != 'X')
  }

  lemma ReadMagnitudeOfDecimal(n: nat, t: string)
    requires EndsNumber(t)
    ensures ReadMagnitude(Decimal(n) + t) == Some((n, t))
  {
    var s := Decimal(n) + t;
    if n == 0 {
      assert s[1..] == t;
    } else {
      ReadDecimal(n, t);
    }
  }

  /** Reading back a printed number returns it and stops right behind it. */
  lemma StrtollOfPrintInt(i: int, t: string)
    requires InLong(i) && EndsNumber(t)
    ensures Strtoll(PrintInt(i) + t) == Scan(i, t, false)
  {
    var s := PrintInt(i) + t;
    assert !IsSpace(s[0]);
    if i < 0 {
      assert s[1..] == Decimal(-i) + t;
      ReadMagnitudeOfDecimal(-i, t);
    } else {
      ReadMagnitudeOfDecimal(i, t);
    }
  }

  lemma SafeStrtollOfPrintInt(i: int)
    requires InLong(i)
    ensures SafeStrtoll(PrintInt(i)) == Some(i)
  {
    StrtollOfPrintInt(i, []);
    assert PrintInt(i) + [] == PrintInt(i);
  }

  lemma DecimalInjective(m: nat, n: nat)
    requires Decimal(m) == Decimal(n)
    ensures m == n
  {
    ReadMagnitudeOfDecimal(m, []);
    ReadMagnitudeOfDecimal(n, []);
    assert Decimal(m) + [] == Decimal(m) && Decimal(n) + [] == Decimal(n);
  }

  /** A printed number reads as no other one, also where it is too big to be read. */
  lemma DecimalReads(n: nat, i: nat)
    requires SafeStrtoll(Decimal(n)) == Some(i)
    ensures n == i
  {
    ReadMagnitudeOfDecimal(n, []);
    assert Decimal(n) + [] == Decimal(n);
    assert !IsSpace(Decimal(n)[0]);
  }
}
