/**
 The recursive-descent parser (conf.c:1184-1531) as functions of the children a definition is loaded into
 and the text left to read.  A Loader fixes the default mode and the reader of real numbers.
 */
module Parser {
  import opened Numbers
  import opened Lexer
  import opened Tree

  datatype Mode = MergeCreate | Merge | Override | DontOverride

  /** What a definition of an id does to the children: nothing, fail, go to a child, or make one behind `base`. */
  datatype Slot = Skipped | Failed(error: Error) | Existing(i: nat) | Fresh(base: seq<Node>)

  function Locate(kids: seq<Node>, id: string, mode: Mode): (s: Slot)
    ensures s.Existing? ==> s.i < |kids|
  {
    match Find(kids, id)
    case Some(i) =>
      if mode.DontOverride? then Skipped
      else if mode.Override? then Fresh(Delete(kids, i))
      else Existing(i)
    case None =>
      if mode.Merge? then Failed(NoEntry) else Fresh(kids)
  }

  /** The children with the value of the located child replaced or added. */
  function Store(kids: seq<Node>, slot: Slot, id: string, v: Value): seq<Node>
    requires slot.Existing? ==> slot.i < |kids|
  {
    match slot
    case Existing(i) => kids[i := Node(id, v)]
    case Fresh(base) => base + [Node(id, v)]
    case _ => kids
  }

  function SlotKids(kids: seq<Node>, slot: Slot): seq<Node>
    requires slot.Existing? ==> slot.i < |kids|
  {
    if slot.Existing? && kids[slot.i].value.Compound? then kids[slot.i].value.kids else []
  }

  function SlotJoin(kids: seq<Node>, slot: Slot): bool
    requires slot.Existing? ==> slot.i < |kids|
  {
    slot.Existing? && kids[slot.i].value.Compound? && kids[slot.i].value.join
  }

  /** A compound cannot be opened in place of an existing scalar. */
  predicate SlotOpens(kids: seq<Node>, slot: Slot)
    requires slot.Existing? ==> slot.i < |kids|
  {
    slot.Existing? ==> kids[slot.i].value.Compound?
  }

  function SlotValue(kids: seq<Node>, slot: Slot): Option<Value>
    requires slot.Existing? ==> slot.i < |kids|
  {
    if slot.Existing? then Some(kids[slot.i].value) else None
  }

  /** The type check of parse_value against a node that is already there; None is -EINVAL. */
  function Assign(prior: Option<Value>, v: Value): Option<Value> {
    match prior
    case None => Some(v)
    case Some(o) =>
      if o.Integer? && v.Integer? then Some(v)
      else if o.Integer? && v.Integer64? then Some(Integer(v.i64))
      else if o.Integer64? && v.Integer64? then Some(v)
      else if o.Integer64? && v.Integer? then Some(Integer64(v.i))
      else if (o.Real? && v.Real?) || (o.Str? && v.Str?) then Some(v)
      else None
  }

  /** The separator that may follow a definition. */
  function SkipSep(t: string): (r: string)
    ensures |r| <= |t|
  {
    var n := Nonwhite(t);
    if n.Char? && (n.c == ';' || n.c == ',') then n.rest else Back(n)
  }

  function Closing(open: char): char {
    if open == '{' then '}' else ']'
  }

  predicate Opens(n: Next) {
    n.Char? && (n.c == '{' || n.c == '[')
  }

  predicate At(n: Next, c: char) {
    n.Char? && n.c == c
  }

  /** The first index from idx whose decimal is not among the ids. */
  function NextFree(ids: set<string>, idx: nat): (j: nat)
    ensures idx <= j
    decreases ids
  {
    if Decimal(idx) in ids then NextFree(ids - {Decimal(idx)}, idx + 1) else idx
  }

  ghost predicate IndexBelow(s: string, j: nat) {
    exists k: nat :: k < j && s == Decimal(k)
  }

  function Ids(kids: seq<Node>): set<string> {
    set k | k in kids :: k.id
  }

  function DeleteId(kids: seq<Node>, id: string): seq<Node> {
    match Find(kids, id)
    case None => kids
    case Some(i) => Delete(kids, i)
  }

  predicate IsModeChar(c: char) {
    c == '+' || c == '-' || c == '?' || c == '!'
  }

  datatype Loader = Loader(override: bool, strtod: string -> Option<real>) {

    function DefaultMode(): Mode {
      if override then Override else MergeCreate
    }

    /** The mode a definition starts with and the text of its id. */
    function ReadMode(c: char, rest: string): (r: (Mode, string))
      ensures |r.1| <= 1 + |rest|
    {
      if c == '+' then (MergeCreate, rest)
      else if c == '-' then (Merge, rest)
      else if c == '?' then (DontOverride, rest)
      else if c == '!' then (Override, rest)
      else (DefaultMode(), [c] + rest)
    }

    /** The value a token denotes: only a free token that starts like a number can be one. */
    function Scalar(tok: Token): Value {
      if !tok.delimited && tok.text != [] && (IsDigit(tok.text[0]) || tok.text[0] == '-') then
        match SafeStrtoll(tok.text)
        case Some(i) => if i <= INT_MAX then Integer(i) else Integer64(i)
        case None =>
          match strtod(tok.text)
          case Some(r) => Real(r)
          case None => Str(tok.text)
      else Str(tok.text)
    }

    /** How a definition, or what follows a dot in one, begins: a mode and an id. */
    function Head(t: string): (r: Res<(Mode, string)>)
      ensures r.Ok? ==> |r.rest| < |t|
      ensures |r.rest| <= |t|
    {
      match Nonwhite(t)
      case Eof => Err(UnexpectedEof, [])
      case Include(rest) => Err(IncludeDirective, rest)
      case Char(c, rest) =>
        var (mode, u) := ReadMode(c, rest);
        match GetString(u, true)
        case Err(e, r1) => Err(e, r1)
        case Ok(tok, r1) => Ok((mode, tok.text), r1)
    }

    /** parse_def: one definition, with its mode prefixes and dotted path. */
    function ParseDef(kids: seq<Node>, t: string, skip: bool): (r: Res<seq<Node>>)
      ensures r.Ok? ==> |r.rest| < |t|
      ensures |r.rest| <= |t|
      ensures skip && r.Ok? ==> r.value == kids
      decreases |t|, 1
    {
      match Head(t)
      case Err(e, r1) => Err(e, r1)
      case Ok((mode, id), r1) =>
        var n := Nonwhite(r1);
        if At(n, '.') then Descend(kids, id, mode, n.rest, skip)
        else Define(kids, id, mode, n, skip)
    }

    /** The dot: the rest of the definition is one inside the child with this id. */
    function Descend(kids: seq<Node>, id: string, mode: Mode, t: string, skip: bool): (r: Res<seq<Node>>)
      ensures |r.rest| <= |t|
      ensures skip && r.Ok? ==> r.value == kids
      decreases |t|, 2
    {
      var slot := if skip then Skipped else Locate(kids, id, mode);
      match slot
      case Failed(e) => Err(e, t)
      case Skipped => ParseDef(kids, t, true)
      case _ =>
        if !SlotOpens(kids, slot) then Err(Invalid, t)
        else
          match ParseDef(SlotKids(kids, slot), t, false)
          case Err(e, r1) => Err(e, r1)
          case Ok(sub, r1) => Ok(Store(kids, slot, id, Compound(sub, true)), r1)
    }

    /** The optional '=' in front of the value. */
    function Define(kids: seq<Node>, id: string, mode: Mode, n: Next, skip: bool): (r: Res<seq<Node>>)
      ensures |r.rest| <= |Back(n)|
      ensures skip && r.Ok? ==> r.value == kids
      decreases |Back(n)|, 2
    {
      if At(n, '=') then
        var m := Nonwhite(n.rest);
        if !m.Char? then Err(NextError(m), Past(m))
        else Body(kids, id, mode, m, skip)
      else Body(kids, id, mode, n, skip)
    }

    /** The value itself: a block in braces, a list in brackets, or a scalar. */
    function Body(kids: seq<Node>, id: string, mode: Mode, n: Next, skip: bool): (r: Res<seq<Node>>)
      ensures |r.rest| <= |Back(n)|
      ensures skip && r.Ok? ==> r.value == kids
      decreases |Back(n)|, 1
    {
      var slot := if skip then Skipped else Locate(kids, id, mode);
      if slot.Failed? then Err(slot.error, Past(n))
      else if Opens(n) then
        if !SlotOpens(kids, slot) then Err(Invalid, n.rest) else Block(kids, id, slot, n.c, n.rest)
      else ScalarDef(kids, id, slot, Back(n))
    }

    /** What follows an opening brace or bracket.  An error inside is only reported if the block still closes. */
    function Block(kids: seq<Node>, id: string, slot: Slot, open: char, t: string): (r: Res<seq<Node>>)
      requires slot.Existing? ==> slot.i < |kids|
      ensures |r.rest| <= |t|
      ensures slot.Skipped? && r.Ok? ==> r.value == kids
      decreases |t|, 3
    {
      var sub := SlotKids(kids, slot);
      var inner := if open == '{' then ParseDefs(sub, t, slot.Skipped?) else ParseArrayDefs(sub, t, 0, slot.Skipped?);
      var e := Nonwhite(inner.rest);
      if !At(e, Closing(open)) then Err(UnexpectedChar, Past(e))
      else
        match inner
        case Err(err, _) => Err(err, SkipSep(e.rest))
        case Ok(sub1, _) =>
          Ok(Store(kids, slot, id, Compound(sub1, SlotJoin(kids, slot))), SkipSep(e.rest))
    }

    function ScalarDef(kids: seq<Node>, id: string, slot: Slot, t: string): (r: Res<seq<Node>>)
      requires slot.Existing? ==> slot.i < |kids|
      ensures |r.rest| <= |t|
      ensures slot.Skipped? && r.Ok? ==> r.value == kids
    {
      match GetString(t, false)
      case Err(e, r1) => Err(e, r1)
      case Ok(tok, r1) =>
        if slot.Skipped? then Ok(kids, SkipSep(r1))
        else
          match Assign(SlotValue(kids, slot), Scalar(tok))
          case None => Err(Invalid, r1)
          case Some(v) => Ok(Store(kids, slot, id, v), SkipSep(r1))
    }

    /** parse_defs: definitions up to the end of the text or a closing brace, which stays unread. */
    function ParseDefs(kids: seq<Node>, t: string, skip: bool): (r: Res<seq<Node>>)
      ensures |r.rest| <= |t|
      ensures skip && r.Ok? ==> r.value == kids
      decreases |t|, 2
    {
      var n := Nonwhite(t);
      match n
      case Eof => Ok(kids, [])
      case Include(rest) => Err(IncludeDirective, rest)
      case Char(c, _) =>
        if c == '}' then Ok(kids, Back(n))
        else
          match ParseDef(kids, Back(n), skip)
          case Err(e, r1) => Err(e, r1)
          case Ok(kids1, r1) => ParseDefs(kids1, r1, skip)
    }

    /** parse_array_defs: items up to a closing bracket, which stays unread. */
    function ParseArrayDefs(kids: seq<Node>, t: string, idx: nat, skip: bool): (r: Res<seq<Node>>)
      ensures |r.rest| <= |t|
      ensures skip && r.Ok? ==> r.value == kids
      decreases |t|, 2
    {
      var n := Nonwhite(t);
      if !n.Char? then Err(NextError(n), Past(n))
      else if n.c == ']' then Ok(kids, Back(n))
      else
        match ParseArrayDef(kids, Back(n), idx, skip)
        case Err(e, r1) => Err(e, r1)
        case Ok((kids1, j), r1) => ParseArrayDefs(kids1, r1, j + 1, skip)
    }

    /** The children an array item is appended to, and its index. */
    function ItemSlot(kids: seq<Node>, idx: nat): (seq<Node>, nat) {
      if override then (DeleteId(kids, Decimal(idx)), idx)
      else (kids, NextFree(Ids(kids), idx))
    }

    /** parse_array_def: one item under the next index. */
    function ParseArrayDef(kids: seq<Node>, t: string, idx: nat, skip: bool): (r: Res<(seq<Node>, nat)>)
      ensures r.Ok? ==> |r.rest| < |t|
      ensures |r.rest| <= |t|
      ensures skip && r.Ok? ==> r.value.0 == kids
      decreases |t|, 1
    {
      var (base, j) := if skip then (kids, idx) else ItemSlot(kids, idx);
      var n := Nonwhite(t);
      if !n.Char? then Err(NextError(n), Past(n))
      else if Opens(n) then
        var inner := if n.c == '{' then ParseDefs([], n.rest, skip) else ParseArrayDefs([], n.rest, 0, skip);
        match inner
        case Err(e, r1) => Err(e, r1)
        case Ok(sub, r1) =>
          var e := Nonwhite(r1);
          if !e.Char? then Err(NextError(e), Past(e))
          else if e.c != Closing(n.c) then Err(UnexpectedChar, e.rest)
          else Ok((if skip then kids else base + [Node(Decimal(j), Compound(sub, false))], j), e.rest)
      else
        match GetString(Back(n), false)
        case Err(e, r1) => Err(e, r1)
        case Ok(tok, r1) => Ok((if skip then kids else base + [Node(Decimal(j), Scalar(tok))], j), r1)
    }

    /** snd_config_load (or _override) of a whole text into the children of a top node; None is an error. */
    function Load(kids: seq<Node>, text: string): Option<seq<Node>> {
      match ParseDefs(kids, text, false)
      case Ok(kids1, rest) => if rest == [] then Some(kids1) else None
      case Err(_, _) => None
    }
  }
}
