/** Arithmetic on the values of `$[...]` expressions (confeval.c:41-122, 205-231). */
module Arithmetic {
  import opened Numbers
  import opened Tree

  const TWO_63 := 0x8000_0000_0000_0000
  const TWO_64 := 0x1_0000_0000_0000_0000

  /** The two's complement bits of a long long. */
  function ToBits(a: int): bv64
    requires InLong(a)
  {
    (if a < 0 then a + TWO_64 else a) as bv64
  }

  function FromBits(b: bv64): (a: int)
    ensures InLong(a)
  {
    var n := b as int;
    if n >= TWO_63 then n - TWO_64 else n
  }

  function Abs(a: int): nat {
    if a < 0 then -a else a
  }

  /** C division truncates toward zero. */
  function TruncDiv(a: int, b: int): int
    requires b != 0
  {
    if (a < 0) == (b < 0) then Abs(a) / Abs(b) else -(Abs(a) / Abs(b))
  }

  function TruncMod(a: int, b: int): int
    requires b != 0
  {
    a - b * TruncDiv(a, b)
  }

  /** A value, an error return, or an operation that C leaves undefined. */
  datatype Outcome<+T> = Computed(v: T) | Failed | Undefined

  predicate IsOperator(c: char) {
    c == '+' || c == '-' || c == '*' || c == '/' || c == '%' || c == '|' || c == '&'
  }

  function InRange(n: int): (r: Outcome<int>)
    ensures r.Computed? ==> InLong(r.v) && r.v == n
  {
    if InLong(n) then Computed(n) else Undefined
  }

  /** One operation; overflow and division by zero are undefined. */
  function Apply(op: char, a: int, b: int): (r: Outcome<int>)
    requires InLong(a) && InLong(b)
    ensures r.Computed? ==> InLong(r.v)
  {
    if op == '+' then InRange(a + b)
    else if op == '-' then InRange(a - b)
    else if op == '*' then InRange(a * b)
    else if op == '/' then if b == 0 then Undefined else InRange(TruncDiv(a, b))
    else if op == '%' then
      if b == 0 || (a == LLONG_MIN && b == -1) then Undefined else InRange(TruncMod(a, b))
    else if op == '|' then Computed(FromBits(ToBits(a) | ToBits(b)))
    else if op == '&' then Computed(FromBits(ToBits(a) & ToBits(b)))
    else Failed
  }

  /** The node a result is stored in. */
  function MakeNode(n: int): Tree.Value {
    if n > INT_MAX || n < INT_MIN then Integer64(n) else Integer(n)
  }

  /** _to_integer: numbers, and strings that are one number. */
  function ToInteger(v: Tree.Value): (r: Outcome<int>)
    ensures r.Computed? ==> InLong(r.v)
  {
    match v
    case Integer(i) => if InLong(i) then Computed(i) else Failed
    case Integer64(i) => if InLong(i) then Computed(i) else Failed
    case Str(s) => (match SafeStrtoll(s) case Some(i) => Computed(i) case None => Failed)
    case _ => Failed
  }

  /** The choice between the two integer types loses nothing. */
  lemma NodeKeepsValue(n: int)
    requires InLong(n)
    ensures ToInteger(MakeNode(n)) == Computed(n)
  {
  }

  /** C division: the quotient is rounded toward zero and the remainder has the sign of the dividend. */
  lemma TruncDivMeaning(a: int, b: int)
    requires b != 0
    ensures a == b * TruncDiv(a, b) + TruncMod(a, b)
    ensures Abs(TruncMod(a, b)) < Abs(b)
    ensures TruncMod(a, b) != 0 ==> (TruncMod(a, b) < 0 <==> a < 0)
  {
    var q, m := Abs(a) / Abs(b), Abs(a) % Abs(b);
    assert Abs(a) == Abs(b) * q + m;
    if a >= 0 && b > 0 {
      assert TruncMod(a, b) == m;
    } else if a >= 0 {
      assert b * -q == Abs(b) * q;
      assert TruncMod(a, b) == m;
    } else if b > 0 {
      assert b * -q == -(Abs(b) * q);
      assert TruncMod(a, b) == -m;
    } else {
      assert b * q == -(Abs(b) * q);
      assert TruncMod(a, b) == -m;
    }
  }
}

/** The `$[...]` evaluator (confeval.c:45-249) against the meaning of expression trees. */
module Evaluator {
  import opened Numbers
  import opened Tree
  import opened Arithmetic

  /** What the caller's variable function returns. */
  datatype Lookup = Missing | LookupError | Found(value: Tree.Value)

  type Vars = string -> Lookup

  predicate IsLow(c: char) {
    c <= ' '
  }

  function SkipLow(s: string): (r: string)
    ensures |r| <= |s|
    ensures r != [] ==> !IsLow(r[0])
  {
    if s != [] && IsLow(s[0]) then SkipLow(s[1..]) else s
  }

  predicate IsNameChar(c: char) {
    IsDigit(c) || 'a' <= c <= 'z' || 'A' <= c <= 'Z' || c == '_'
  }

  function NameLength(s: string): (n: nat)
    ensures n <= |s|
  {
    if s == [] || !IsNameChar(s[0]) then 0 else 1 + NameLength(s[1..])
  }

  /** _find_end_of_expression: how many characters there are up to and with the closing one. */
  function FindEnd(s: string, begin: char, end: char, count: nat): (r: Option<nat>)
    requires count > 0
    ensures r.Some? ==> 0 < r.value <= |s|
  {
    if s == [] then None
    else if s[0] == end && s[0] != begin && count == 1 then Some(1)
    else
      var c := if s[0] == begin then count + 1 else if s[0] == end then count - 1 else count;
      match FindEnd(s[1..], begin, end, c)
      case None => None
      case Some(n) => Some(n + 1)
  }

  datatype Pos = LEFT | OP | RIGHT | END

  function Rank(p: Pos): nat {
    match p
    case LEFT => 3
    case OP => 2
    case RIGHT => 1
    case END => 0
  }

  /** The character behind a closing bracket is stepped over, whatever it is. */
  function DropOne(s: string): (r: string)
    ensures |r| <= |s|
  {
    if s == [] then [] else s[1..]
  }

  /** The value that stands where an operand is expected, and the text behind it. */
  datatype Operand = Operand(value: Outcome<int>, rest: string)

  function Finish(pos: Pos, op: char, left: int, right: int): Outcome<int>
    requires InLong(left) && InLong(right)
  {
    match pos
    case OP => Computed(left)
    case END => Apply(op, left, right)
    case _ => Failed
  }

  function Lift(r: Outcome<int>): Outcome<Tree.Value> {
    match r
    case Computed(n) => Computed(MakeNode(n))
    case Failed => Failed
    case Undefined => Undefined
  }

  function Lower(r: Outcome<Tree.Value>): (i: Outcome<int>)
    ensures i.Computed? ==> InLong(i.v)
  {
    match r
    case Computed(v) => ToInteger(v)
    case Failed => Failed
    case Undefined => Undefined
  }

  function VarValue(vars: Vars, name: string): (i: Outcome<int>)
    ensures i.Computed? ==> InLong(i.v)
  {
    match vars(name)
    case Missing => Computed(0)
    case LookupError => Failed
    case Found(v) => ToInteger(v)
  }

  function Eval(vars: Vars, s: string): Outcome<Tree.Value>
    decreases |s|, 5
  {
    Lift(Steps(vars, SkipLow(s), LEFT, '\0', 0, 0))
  }

  /** The loop of _snd_eval_string from a given state. */
  function Steps(vars: Vars, s: string, pos: Pos, op: char, left: int, right: int): Outcome<int>
    requires InLong(left) && InLong(right)
    decreases |s|, Rank(pos)
  {
    var t := SkipLow(s);
    if t == [] then Finish(pos, op, left, right)
    else if pos.END? then Failed
    else if pos.OP? then
      if IsOperator(t[0]) then Steps(vars, t[1..], RIGHT, t[0], left, right) else Failed
    else
      var o := ReadOperand(vars, t);
      match o.value
      case Failed => Failed
      case Undefined => Undefined
      case Computed(n) =>
        if pos.LEFT? then Steps(vars, o.rest, OP, op, n, right) else Steps(vars, o.rest, END, op, left, n)
  }

  function ReadOperand(vars: Vars, t: string): (o: Operand)
    requires t != []
    ensures o.value.Computed? ==> InLong(o.value.v)
    ensures |o.rest| <= |t|
    decreases |t|, 0
  {
    if t[0] == '(' then ReadBracket(vars, t[1..], '(', ')')
    else if t[0] == '$' && |t| > 1 && t[1] == '[' then ReadBracket(vars, t[2..], '[', ']')
    else if t[0] == '$' then
      var n := NameLength(t[1..]);
      Operand(VarValue(vars, t[1..n + 1]), t[n + 1..])
    else if t[0] == '-' || IsDigit(t[0]) then
      var n := Strtoll(t);
      Operand(if n.overflow then Failed else Computed(n.value), n.end)
    else Operand(Failed, t)
  }

  function ReadBracket(vars: Vars, s: string, begin: char, end: char): (o: Operand)
    ensures o.value.Computed? ==> InLong(o.value.v)
    ensures |o.rest| <= |s|
    decreases |s|, 6
  {
    match FindEnd(s, begin, end, 1)
    case None => Operand(Failed, s)
    case Some(n) => Operand(Lower(Eval(vars, s[..n - 1])), DropOne(s[n..]))
  }

  // ----- the evaluator as it runs

  method FindEndOfExpression(s: string, begin: char, end: char) returns (r: Option<nat>)
    ensures r == FindEnd(s, begin, end, 1)
  {
    var count, i := 1, 0;
    while i < |s|
      invariant 0 <= i <= |s| && count > 0
      invariant FindEnd(s, begin, end, 1) ==
                match FindEnd(s[i..], begin, end, count)
                case None => None
                case Some(n) => Some(n + i)
    {
      assert s[i..][1..] == s[i + 1..];
      if s[i] == begin {
        count := count + 1;
      } else if s[i] == end {
        count := count - 1;
        if count == 0 {
          return Some(i + 1);
        }
      }
      i := i + 1;
    }
    return None;
  }

  method EvalString(vars: Vars, text: string) returns (r: Outcome<Tree.Value>)
    ensures r == Eval(vars, text)
    decreases |text|
  {
    var s := SkipBlanks(text);
    var pos, op, left, right := LEFT, '\0', 0, 0;
    while s != []
      invariant InLong(left) && InLong(right) && |s| <= |text|
      invariant Steps(vars, s, pos, op, left, right) == Steps(vars, SkipLow(text), LEFT, '\0', 0, 0)
      decreases |s|, Rank(pos)
    {
      s := SkipBlanks(s);
      if s == [] {
        break;
      }
      var c := s[0];
      if pos.END? {
        return Failed;
      }
      if pos.OP? {
        if !IsOperator(c) {
          return Failed;
        }
        op, pos, s := c, RIGHT, s[1..];
        continue;
      }
      var v: Outcome<int>;
      ghost var t := s;
      if c == '(' {
        v, s := EvalBracket(vars, s[1..], '(', ')');
      } else if c == '$' && |s| > 1 && s[1] == '[' {
        v, s := EvalBracket(vars, s[2..], '[', ']');
      } else if c == '$' {
        var n := ScanName(s[1..]);
        v, s := VarValue(vars, s[1..n + 1]), s[n + 1..];
      } else if c == '-' || IsDigit(c) {
        var n := Strtoll(s);
        v, s := if n.overflow then Failed else Computed(n.value), n.end;
      } else {
        return Failed;
      }
      assert Operand(v, s) == ReadOperand(vars, t);
      match v {
        case Failed => return Failed;
        case Undefined => return Undefined;
        case Computed(n) =>
          if pos.LEFT? {
            left, pos := n, OP;
          } else {
            right, pos := n, END;
          }
      }
    }
    var f := Finish(pos, op, left, right);
    return Lift(f);
  }

  method EvalBracket(vars: Vars, s: string, begin: char, end: char) returns (v: Outcome<int>, rest: string)
    ensures Operand(v, rest) == ReadBracket(vars, s, begin, end)
    decreases |s|, 6
  {
    var n := FindEndOfExpression(s, begin, end);
    if n.None? {
      return Failed, s;
    }
    var r := EvalString(vars, s[..n.value - 1]);
    return Lower(r), DropOne(s[n.value..]);
  }

  method SkipBlanks(s: string) returns (r: string)
    ensures r == SkipLow(s)
  {
    r := s;
    while r != [] && IsLow(r[0])
      invariant SkipLow(r) == SkipLow(s)
      decreases |r|
    {
      r := r[1..];
    }
  }

  method ScanName(s: string) returns (n: nat)
    ensures n == NameLength(s)
  {
    n := 0;
    while n < |s| && IsNameChar(s[n])
      invariant n <= |s| && NameLength(s) == n + NameLength(s[n..])
    {
      assert s[n..][1..] == s[n + 1..];
      n := n + 1;
    }
  }

  // ----- expression trees

  datatype Expr = One(o: Term) | Two(op: char, l: Term, r: Term)

  datatype Term = Num(n: int) | Var(name: string) | Paren(e: Expr) | Dollar(e: Expr)

  predicate ExprOk(e: Expr) {
    match e
    case One(o) => TermOk(o)
    case Two(op, l, r) => IsOperator(op) && TermOk(l) && TermOk(r)
  }

  predicate TermOk(o: Term) {
    match o
    case Num(n) => InLong(n)
    case Var(name) => forall i :: 0 <= i < |name| ==> IsNameChar(name[i])
    case Paren(e) => ExprOk(e)
    case Dollar(e) => ExprOk(e)
  }

  /** An operator stands between blanks, so a blank follows every closing bracket that is not at the end. */
  function PrintExpr(e: Expr): string {
    match e
    case One(o) => PrintTerm(o)
    case Two(op, l, r) => PrintTerm(l) + [' ', op, ' '] + PrintTerm(r)
  }

  function PrintTerm(o: Term): string {
    match o
    case Num(n) => PrintInt(n)
    case Var(name) => ['$'] + name
    case Paren(e) => ['('] + PrintExpr(e) + [')']
    case Dollar(e) => ['$', '['] + PrintExpr(e) + [']']
  }

  /** What an expression means. */
  function Denote(vars: Vars, e: Expr): (r: Outcome<int>)
    ensures r.Computed? ==> InLong(r.v)
  {
    match e
    case One(o) => DenoteTerm(vars, o)
    case Two(op, l, r) =>
      match DenoteTerm(vars, l)
      case Failed => Failed
      case Undefined => Undefined
      case Computed(a) =>
        match DenoteTerm(vars, r)
        case Failed => Failed
        case Undefined => Undefined
        case Computed(b) => Apply(op, a, b)
  }

  function DenoteTerm(vars: Vars, o: Term): (r: Outcome<int>)
    ensures r.Computed? ==> InLong(r.v)
  {
    match o
    case Num(n) => if InLong(n) then Computed(n) else Failed
    case Var(name) => VarValue(vars, name)
    case Paren(e) => Denote(vars, e)
    case Dollar(e) => Denote(vars, e)
  }

  // ----- brackets of a printed expression balance

  /** Text in which the search for the closing bracket neither ends nor gains or loses depth. */
  ghost predicate Balanced(u: string, begin: char, end: char) {
    forall t, count: nat | count > 0 ::
      FindEnd(u + t, begin, end, count) ==
      match FindEnd(t, begin, end, count)
      case None => None
      case Some(n) => Some(|u| + n)
  }

  predicate NoBrackets(u: string) {
    forall i :: 0 <= i < |u| ==> u[i] != '(' && u[i] != ')' && u[i] != '[' && u[i] != ']'
  }

  predicate IsPair(begin: char, end: char) {
    (begin == '(' && end == ')') || (begin == '[' && end == ']')
  }

  lemma {:induction false} PlainBalanced(u: string, begin: char, end: char)
    requires NoBrackets(u) && IsPair(begin, end)
    ensures Balanced(u, begin, end)
    decreases |u|
  {
    forall t, count: nat | count > 0
      ensures FindEnd(u + t, begin, end, count) ==
              match FindEnd(t, begin, end, count)
              case None => None
              case Some(n) => Some(|u| + n)
    {
      if u == [] {
        assert u + t == t;
      } else {
        PlainBalanced(u[1..], begin, end);
        assert (u + t)[1..] == u[1..] + t;
        assert (u + t)[0] == u[0];
      }
    }
  }

  lemma ConcatBalanced(u: string, v: string, begin: char, end: char)
    requires Balanced(u, begin, end) && Balanced(v, begin, end)
    ensures Balanced(u + v, begin, end)
  {
    forall t, count: nat | count > 0
      ensures FindEnd(u + v + t, begin, end, count) ==
              match FindEnd(t, begin, end, count)
              case None => None
              case Some(n) => Some(|u + v| + n)
    {
      assert u + v + t == u + (v + t);
    }
  }

  /** A bracketed text balances, for its own brackets and for the other kind. */
  lemma BracketBalanced(u: string, open: char, close: char, begin: char, end: char)
    requires IsPair(open, close) && IsPair(begin, end) && Balanced(u, begin, end)
    ensures Balanced([open] + u + [close], begin, end)
  {
    forall t, count: nat | count > 0
      ensures FindEnd([open] + u + [close] + t, begin, end, count) ==
              match FindEnd(t, begin, end, count)
              case None => None
              case Some(n) => Some(|u| + 2 + n)
    {
      var s := u + ([close] + t);
      assert [open] + u + [close] + t == [open] + s;
      assert ([open] + s)[1..] == s && ([close] + t)[1..] == t;
    }
  }

  lemma NumberPlain(n: int)
    ensures NoBrackets(PrintInt(n))
  {
    var s := PrintInt(n);
    forall i | 0 <= i < |s|
      ensures s[i] == '-' || IsDigit(s[i])
    {
      if n < 0 && i > 0 {
        assert s[i] == Decimal(-n)[i - 1];
      }
    }
  }

  lemma {:induction false} TermBalanced(o: Term, begin: char, end: char)
    requires TermOk(o) && IsPair(begin, end)
    ensures Balanced(PrintTerm(o), begin, end)
    decreases o
  {
    hide Balanced;
    match o
    case Num(n) =>
      NumberPlain(n);
      PlainBalanced(PrintInt(n), begin, end);
    case Var(name) =>
      PlainBalanced(['$'] + name, begin, end);
    case Paren(e) =>
      ExprBalanced(e, begin, end);
      BracketBalanced(PrintExpr(e), '(', ')', begin, end);
    case Dollar(e) =>
      ExprBalanced(e, begin, end);
      BracketBalanced(PrintExpr(e), '[', ']', begin, end);
      PlainBalanced(['$'], begin, end);
      ConcatBalanced(['$'], ['['] + PrintExpr(e) + [']'], begin, end);
      assert ['$'] + (['['] + PrintExpr(e) + [']']) == PrintTerm(o);
  }

  lemma {:induction false} ExprBalanced(e: Expr, begin: char, end: char)
    requires ExprOk(e) && IsPair(begin, end)
    ensures Balanced(PrintExpr(e), begin, end)
    decreases e
  {
    hide Balanced;
    match e
    case One(o) => TermBalanced(o, begin, end);
    case Two(op, l, r) =>
      TermBalanced(l, begin, end);
      TermBalanced(r, begin, end);
      PlainBalanced([' ', op, ' '], begin, end);
      ConcatBalanced(PrintTerm(l), [' ', op, ' '], begin, end);
      ConcatBalanced(PrintTerm(l) + [' ', op, ' '], PrintTerm(r), begin, end);
  }

  // ----- evaluating a printed expression

  predicate Spaced(t: string) {
    t == [] || t[0] == ' '
  }

  lemma DropOneSpaced(t: string)
    requires Spaced(t)
    ensures SkipLow(DropOne(t)) == SkipLow(t)
  {
  }

  lemma LowerLift(r: Outcome<int>)
    requires r.Computed? ==> InLong(r.v)
    ensures Lower(Lift(r)) == r
  {
  }

  lemma BracketOf(vars: Vars, u: string, t: string, begin: char, end: char)
    requires IsPair(begin, end) && Balanced(u, begin, end)
    ensures ReadBracket(vars, u + [end] + t, begin, end) == Operand(Lower(Eval(vars, u)), DropOne(t))
  {
    var s := u + [end] + t;
    assert s == u + ([end] + t);
    assert FindEnd([end] + t, begin, end, 1) == Some(1);
    assert s[..|u|] == u && s[|u| + 1..] == t;
  }

  lemma {:induction false} NameLengthOf(name: string, t: string)
    requires forall i :: 0 <= i < |name| ==> IsNameChar(name[i])
    requires Spaced(t)
    ensures NameLength(name + t) == |name|
  {
    if name == [] {
      assert name + t == t;
    } else {
      assert (name + t)[1..] == name[1..] + t;
      NameLengthOf(name[1..], t);
    }
  }

  lemma VarOf(vars: Vars, name: string, t: string)
    requires forall i :: 0 <= i < |name| ==> IsNameChar(name[i])
    requires Spaced(t)
    ensures ReadOperand(vars, ['$'] + name + t) == Operand(VarValue(vars, name), t)
  {
    hide VarValue, NameLength, ReadBracket, Strtoll;
    var s, n := ['$'] + name + t, |name|;
    NameParts(name, t);
    NameLengthOf(name, t);
    assert ReadOperand(vars, s) == Operand(VarValue(vars, s[1..n + 1]), s[n + 1..]);
  }

  lemma NameParts(name: string, t: string)
    requires forall i :: 0 <= i < |name| ==> IsNameChar(name[i])
    requires Spaced(t)
    ensures var s, n := ['$'] + name + t, |name|;
            && s[0] == '$' && s[1..] == name + t && s[1..n + 1] == name && s[n + 1..] == t && !(|s| > 1 && s[1] == '[')
  {
    var s := ['$'] + name + t;
    if |s| > 1 {
      assert s[1] == if name != [] then name[0] else t[0];
    }
  }

  lemma NumOf(vars: Vars, n: int, t: string)
    requires InLong(n) && Spaced(t)
    ensures ReadOperand(vars, PrintInt(n) + t) == Operand(Computed(n), t)
  {
    hide Strtoll;
    StrtollOfPrintInt(n, t);
  }

  lemma {:induction false} TermOf(vars: Vars, o: Term, t: string)
    requires TermOk(o) && Spaced(t)
    ensures var r := ReadOperand(vars, PrintTerm(o) + t);
            r.value == DenoteTerm(vars, o) && SkipLow(r.rest) == SkipLow(t)
    decreases o, 0
  {
    hide Eval, Balanced, SkipLow, PrintInt, Lift, Lower, ReadBracket;
    DropOneSpaced(t);
    match o
    case Num(n) => NumOf(vars, n, t);
    case Var(name) => VarOf(vars, name, t);
    case Paren(e) =>
      EvalOf(vars, e);
      LowerLift(Denote(vars, e));
      ExprBalanced(e, '(', ')');
      var u := PrintExpr(e) + [')'] + t;
      assert PrintTerm(o) + t == ['('] + u && (['('] + u)[1..] == u;
      BracketOf(vars, PrintExpr(e), t, '(', ')');
    case Dollar(e) =>
      EvalOf(vars, e);
      LowerLift(Denote(vars, e));
      ExprBalanced(e, '[', ']');
      var u := PrintExpr(e) + [']'] + t;
      assert PrintTerm(o) + t == ['$', '['] + u && (['$', '['] + u)[2..] == u;
      BracketOf(vars, PrintExpr(e), t, '[', ']');
  }

  lemma TermStart(o: Term)
    requires TermOk(o)
    ensures PrintTerm(o) != [] && !IsLow(PrintTerm(o)[0])
  {
  }

  lemma SameSkipSameSteps(vars: Vars, a: string, b: string, pos: Pos, op: char, left: int, right: int)
    requires InLong(left) && InLong(right) && SkipLow(a) == SkipLow(b)
    ensures Steps(vars, a, pos, op, left, right) == Steps(vars, b, pos, op, left, right)
  {
  }

  /** One operand, in the state that expects it. */
  lemma OperandStep(vars: Vars, o: Term, t: string, pos: Pos, op: char, left: int, right: int)
    requires TermOk(o) && Spaced(t) && InLong(left) && InLong(right) && (pos.LEFT? || pos.RIGHT?)
    ensures Steps(vars, PrintTerm(o) + t, pos, op, left, right) ==
            match DenoteTerm(vars, o)
            case Failed => Failed
            case Undefined => Undefined
            case Computed(n) =>
              if pos.LEFT? then Steps(vars, t, OP, op, n, right) else Steps(vars, t, END, op, left, n)
    decreases o, 1
  {
    hide DenoteTerm, ReadOperand, PrintTerm, SkipLow;
    TermOf(vars, o, t);
    TermStart(o);
    var s := PrintTerm(o) + t;
    SkipsNothing(s);
    var r := ReadOperand(vars, s);
    if r.value.Computed? {
      SameSkipSameSteps(vars, r.rest, t, OP, op, r.value.v, right);
      SameSkipSameSteps(vars, r.rest, t, END, op, left, r.value.v);
    }
  }

  lemma SkipsNothing(s: string)
    requires s != [] && !IsLow(s[0])
    ensures SkipLow(s) == s
  {
  }

  lemma OperatorStep(vars: Vars, op: char, t: string, left: int, right: int)
    requires IsOperator(op) && InLong(left) && InLong(right)
    ensures Steps(vars, [' ', op, ' '] + t, OP, '\0', left, right) == Steps(vars, t, RIGHT, op, left, right)
  {
    var s := [' ', op, ' '] + t;
    assert s[1..] == [op, ' '] + t;
    assert SkipLow(s) == [op, ' '] + t;
    assert ([op, ' '] + t)[1..] == [' '] + t;
    assert ([' '] + t)[1..] == t;
    SameSkipSameSteps(vars, [' '] + t, t, RIGHT, op, left, right);
  }

  /** The evaluator computes the meaning of every printed expression, errors and undefined operations included. */
  lemma {:induction false} EvalOf(vars: Vars, e: Expr)
    requires ExprOk(e)
    ensures Eval(vars, PrintExpr(e)) == Lift(Denote(vars, e))
    decreases e
  {
    match e
    case One(o) =>
      TermStart(o);
      SkipsNothing(PrintTerm(o));
      assert PrintTerm(o) + [] == PrintTerm(o);
      OperandStep(vars, o, [], LEFT, '\0', 0, 0);
    case Two(op, l, r) =>
      TwoOf(vars, op, l, r);
  }

  lemma TwoOf(vars: Vars, op: char, l: Term, r: Term)
    requires IsOperator(op) && TermOk(l) && TermOk(r)
    ensures Eval(vars, PrintExpr(Two(op, l, r))) == Lift(Denote(vars, Two(op, l, r)))
    decreases Two(op, l, r), 0
  {
    hide Steps, DenoteTerm, PrintTerm, SkipLow, Lift;
    var t := [' ', op, ' '] + PrintTerm(r);
    var s := PrintExpr(Two(op, l, r));
    assert s == PrintTerm(l) + t;
    TermStart(l);
    SkipsNothing(s);
    OperandStep(vars, l, t, LEFT, '\0', 0, 0);
    var a := DenoteTerm(vars, l);
    if a.Computed? {
      OperatorStep(vars, op, PrintTerm(r), a.v, 0);
      assert PrintTerm(r) + [] == PrintTerm(r);
      OperandStep(vars, r, [], RIGHT, op, a.v, 0);
      var b := DenoteTerm(vars, r);
      if b.Computed? {
        AtEnd(vars, op, a.v, b.v);
      }
    }
  }

  lemma AtEnd(vars: Vars, op: char, left: int, right: int)
    requires InLong(left) && InLong(right)
    ensures Steps(vars, [], END, op, left, right) == Apply(op, left, right)
  {
  }

  // ----- the character behind a bracket

  /** How an operand in brackets begins. */
  function OpenText(begin: char): string {
    if begin == '(' then "(" else "$["
  }

  /** The operand in brackets, whatever the character behind it. */
  lemma BracketRead(vars: Vars, u: string, x: char, t: string, begin: char, end: char)
    requires IsPair(begin, end) && Balanced(u, begin, end)
    ensures var s := OpenText(begin) + (u + [end] + ([x] + t));
            ReadOperand(vars, s) == Operand(Lower(Eval(vars, u)), t) && SkipLow(s) == s
  {
    hide Eval, Balanced, Lower, ReadBracket;
    var v := u + [end] + ([x] + t);
    var s := OpenText(begin) + v;
    assert s[|OpenText(begin)|..] == v && ([x] + t)[1..] == t;
    BracketOf(vars, u, [x] + t, begin, end);
  }

  /** What stands right behind a closing bracket is never looked at. */
  lemma BehindBracketIgnored(vars: Vars, u: string, c: char, d: char, t: string, begin: char, end: char,
                             pos: Pos, op: char, left: int, right: int)
    requires InLong(left) && InLong(right) && IsPair(begin, end) && Balanced(u, begin, end)
    ensures Steps(vars, OpenText(begin) + (u + [end] + ([c] + t)), pos, op, left, right)
         == Steps(vars, OpenText(begin) + (u + [end] + ([d] + t)), pos, op, left, right)
  {
    hide Eval, Balanced, Lower, ReadOperand, SkipLow;
    BracketRead(vars, u, c, t, begin, end);
    BracketRead(vars, u, d, t, begin, end);
  }

  predicate Bracketed(o: Term) {
    o.Paren? || o.Dollar?
  }

  lemma BracketedOf(vars: Vars, l: Term, x: char, t: string)
    requires TermOk(l) && Bracketed(l)
    ensures var s := PrintTerm(l) + ([x] + t);
            ReadOperand(vars, s) == Operand(DenoteTerm(vars, l), t) && SkipLow(s) == s
  {
    hide Eval, Balanced, Lower, Lift, ReadOperand, SkipLow;
    var begin, end := if l.Paren? then '(' else '[', if l.Paren? then ')' else ']';
    var u := PrintExpr(l.e);
    assert PrintTerm(l) + ([x] + t) == OpenText(begin) + (u + [end] + ([x] + t));
    ExprBalanced(l.e, begin, end);
    BracketRead(vars, u, x, t, begin, end);
    EvalOf(vars, l.e);
    LowerLift(Denote(vars, l.e));
  }

  /** What follows once the operator has been stepped over. */
  function Beheaded(a: int, r: Term): Outcome<int>
    requires InLong(a)
  {
    if r.Num? && r.n < 0 && -r.n <= LLONG_MAX then Apply('-', a, -r.n) else Failed
  }

  predicate Blank(b: string) {
    forall i :: 0 <= i < |b| ==> IsLow(b[i])
  }

  lemma {:induction false} SkipsBlank(b: string, t: string)
    requires Blank(b)
    ensures SkipLow(b + t) == SkipLow(t)
  {
    if b == [] {
      assert b + t == t;
    } else {
      assert (b + t)[1..] == b[1..] + t;
      SkipsBlank(b[1..], t);
    }
  }

  /** Where an operator is expected, a printed operand is an error, unless its minus sign is taken for one. */
  lemma OperandForOperator(vars: Vars, r: Term, a: int)
    requires TermOk(r) && InLong(a)
    ensures Steps(vars, PrintTerm(r), OP, '\0', a, 0) == Beheaded(a, r)
  {
    hide SkipLow, Strtoll, Decimal;
    TermStart(r);
    SkipsNothing(PrintTerm(r));
    if r.Num? && r.n < 0 {
      var m := -r.n;
      assert PrintTerm(r)[1..] == Decimal(m);
      DigitsOnly(vars, m);
      SkipsNothing(Decimal(m));
      if m <= LLONG_MAX {
        SkipsNone();
        assert Steps(vars, [], END, '-', a, m) == Apply('-', a, m);
      }
    }
  }

  lemma SkipsNone()
    ensures SkipLow([]) == []
  {
  }

  lemma DigitsOnly(vars: Vars, m: nat)
    requires m > 0
    ensures Decimal(m) != [] && !IsLow(Decimal(m)[0])
    ensures var o := ReadOperand(vars, Decimal(m));
            if m <= LLONG_MAX then o == Operand(Computed(m), []) else o.value == Failed
  {
    hide ReadMagnitude, Decimal;
    ReadMagnitudeOfDecimal(m, []);
    assert Decimal(m) + [] == Decimal(m);
    assert SkipSpace(Decimal(m)) == Decimal(m);
  }

  /**
   The operator right behind a bracketed operand is lost: a printed right operand then fails, and a negative number
   is subtracted whatever the operator was.
   */
  lemma OperatorLost(vars: Vars, op: char, b: string, l: Term, r: Term)
    requires TermOk(l) && Bracketed(l) && TermOk(r) && Blank(b)
    ensures Eval(vars, PrintTerm(l) + ([op] + (b + PrintTerm(r)))) ==
            Lift(match DenoteTerm(vars, l)
                 case Failed => Failed
                 case Undefined => Undefined
                 case Computed(a) => Beheaded(a, r))
  {
    hide ReadOperand, SkipLow, PrintTerm, DenoteTerm, Lift, Beheaded;
    var s := PrintTerm(l) + ([op] + (b + PrintTerm(r)));
    BracketedOf(vars, l, op, b + PrintTerm(r));
    TermStart(l);
    var a := DenoteTerm(vars, l);
    if a.Computed? {
      SkipsBlank(b, PrintTerm(r));
      SameSkipSameSteps(vars, b + PrintTerm(r), PrintTerm(r), OP, '\0', a.v, 0);
      OperandForOperator(vars, r, a.v);
    }
  }

  /**
   So with a defined left operand and any right operand but a negative number the text without the blank is an error.
   */
  lemma OperatorLostFails(vars: Vars, op: char, l: Term, r: Term)
    requires TermOk(l) && Bracketed(l) && TermOk(r) && DenoteTerm(vars, l).Computed? && !(r.Num? && r.n < 0)
    ensures Eval(vars, PrintTerm(l) + ([op] + PrintTerm(r))) == Failed
  {
    OperatorLost(vars, op, [], l, r);
    assert [] + PrintTerm(r) == PrintTerm(r);
  }

  /** snd_config_evaluate_string: an expression in `$[...]`, or a variable whose value is passed on as it is. */
  function EvaluateString(vars: Vars, s: string): Outcome<Option<Tree.Value>> {
    if s == [] || s[0] != '$' then Failed
    else if |s| > 1 && s[1] == '[' then
      match Eval(vars, s)
      case Computed(v) => Computed(Some(v))
      case Failed => Failed
      case Undefined => Undefined
    else
      match vars(s[1..])
      case Missing => Computed(None)
      case LookupError => Failed
      case Found(v) => Computed(Some(v))
  }

  lemma EvaluateStringOf(vars: Vars, e: Expr)
    requires ExprOk(e)
    ensures EvaluateString(vars, ['$', '['] + PrintExpr(e) + [']']) ==
            match Denote(vars, e)
            case Computed(n) => Computed(Some(MakeNode(n)))
            case Failed => Failed
            case Undefined => Undefined
  {
    hide Eval;
    EvalOf(vars, One(Dollar(e)));
  }
}
