/** Trees outside the domain of the round trip, and what becomes of them. */
module RoundTripLimits {
  import opened Numbers
  import opened Lexer
  import opened Tree
  import opened Parser
  import opened TokenPrinter
  import opened TokenRoundTrip
  import opened Printer
  import opened SavedForm
  import opened RoundTrip

  // ----- ids

  /** The id is read back as itself, in the default mode, in front of every separator. */
  ghost predicate IdComesBack(ld: Loader, id: string) {
    forall u | Separated(u, true) :: ld.Head(StringPrint(id, true) + u) == Ok((ld.DefaultMode(), id), u)
  }

  lemma CStringShort(s: string)
    ensures |CString(s)| <= |s|
  {
  }

  /** A free token is no longer than what it is read from. */
  lemma TokenShort(t: string, id: bool)
    requires GetString(t, id).Ok? && !GetString(t, id).value.delimited
    ensures |GetString(t, id).value.text| + |GetString(t, id).rest| <= |t|
  {
    hide Nonwhite, FreeString;
    NonwhiteShort(t);
    CStringShort(FreeString(Back(Nonwhite(t)), id).0);
  }

  lemma StartsPlain(id: string, t: string)
    requires !Quoted(id, true)
    ensures id != [] && !IsQuote(id[0]) && StringPrint(id, true) == id
    ensures id[0] != '<' ==> Nonwhite(id + t) == Char(id[0], id[1..] + t)
    ensures id[0] == '<' ==> Nonwhite(id + t).Include?
  {
    assert !NeedsQuote(id[0]) && (id + t)[1..] == id[1..] + t;
  }

  lemma StartsQuoted(id: string, t: string)
    requires Quoted(id, true)
    ensures StringPrint(id, true) != [] && IsQuote(StringPrint(id, true)[0])
    ensures Nonwhite(StringPrint(id, true) + t).Char?
    ensures Nonwhite(StringPrint(id, true) + t).c == StringPrint(id, true)[0]
  {
    var p := StringPrint(id, true);
    assert id == [] ==> p == "''";
    assert (p + t)[0] == p[0];
  }

  /** An id that comes back as the id of a definition comes back as a token. */
  lemma HeadIsToken(ld: Loader, id: string, t: string)
    requires Separated(t, true) && ld.Head(StringPrint(id, true) + t) == Ok((ld.DefaultMode(), id), t)
    ensures GetString(StringPrint(id, true) + t, true) == Ok(Token(id, Quoted(id, true)), t)
    ensures !Quoted(id, true) ==> !IsModeChar(id[0])
  {
    hide GetString, Quoted, StringPrint;
    var p := StringPrint(id, true) + t;
    var n := Nonwhite(p);
    if Quoted(id, true) {
      StartsQuoted(id, t);
      NonwhiteBack(p);
      SameToken(p, true);
    } else {
      StartsPlain(id, t);
      if IsModeChar(id[0]) {
        ModeShort(id, t);
      } else {
        NonwhiteBack(p);
        SameToken(p, true);
      }
    }
  }

  lemma ModeShort(id: string, t: string)
    requires id != [] && !Quoted(id, true)
    ensures GetString(id[1..] + t, true) != Ok(Token(id, false), t)
    ensures GetString(id[1..] + t, true) != Ok(Token(id, true), t)
  {
    hide Nonwhite;
    var g := GetString(id[1..] + t, true);
    if g.Ok? && g.rest == t && !g.value.delimited {
      TokenShort(id[1..] + t, true);
    }
    if g.Ok? && g.rest == t && g.value.delimited {
      QuoteAhead(id, t);
    }
  }

  /** An unquoted id holds no quote, so a quoted token behind its first character would start behind the id. */
  lemma QuoteAhead(id: string, t: string)
    requires id != [] && !Quoted(id, true) && GetString(id[1..] + t, true).Ok?
    requires GetString(id[1..] + t, true).value.delimited
    ensures |GetString(id[1..] + t, true).rest| < |t|
  {
    hide DelimString, FreeString, CString;
    if id[1..] == [] {
      assert id[1..] + t == t;
      NonwhiteShort(t);
    }
  }

  /** The characters a token starts with are the same after blanks and comments have been skipped. */
  lemma SameToken(p: string, id: bool)
    ensures GetString(Back(Nonwhite(p)), id) == GetString(p, id)
    ensures GetString(p, id).Ok? ==> Nonwhite(p).Char? && (GetString(p, id).value.delimited <==> IsQuote(Nonwhite(p).c))
  {
    hide Nonwhite, DelimString, FreeString, CString;
    NonwhiteBack(p);
  }

  /** Exactly the ids of the domain come back, for every C string. */
  lemma IdComesBackIff(ld: Loader, id: string)
    requires IsCString(id)
    ensures IdComesBack(ld, id) <==> IdOk(id)
  {
    hide StringPrint, Quoted, Loader.Head, GetString;
    if IdOk(id) {
      forall u | Separated(u, true)
        ensures ld.Head(StringPrint(id, true) + u) == Ok((ld.DefaultMode(), id), u)
      {
        HeadOfId(ld, id, u);
      }
    } else if IdComesBack(ld, id) {
      forall t | Separated(t, true)
        ensures GetString(StringPrint(id, true) + t, true) == Ok(Token(id, Quoted(id, true)), t)
      {
        HeadIsToken(ld, id, t);
      }
      RoundTripsIff(id, true);
      HeadIsToken(ld, id, []);
      assert false;
    }
  }

  // ----- joined compounds in arrays

  predicate NoneJoined(kids: seq<Node>) {
    forall k | k in kids :: !Joined(k.value)
  }

  lemma NoneJoinedAppend(base: seq<Node>, k: Node)
    requires NoneJoined(base) && !Joined(k.value)
    ensures NoneJoined(base + [k])
  {
  }

  lemma SlotNoneJoined(ld: Loader, kids: seq<Node>, idx: nat)
    requires NoneJoined(kids)
    ensures NoneJoined(ld.ItemSlot(kids, idx).0)
  {
    if ld.override && Find(kids, Decimal(idx)).Some? {
      var i := Find(kids, Decimal(idx)).value;
      forall k | k in Delete(kids, i)
        ensures k in kids
      {
      }
    }
  }

  /** One item is never a joined compound. */
  lemma ItemNotJoined(ld: Loader, kids: seq<Node>, t: string, idx: nat, skip: bool)
    requires NoneJoined(kids) && ld.ParseArrayDef(kids, t, idx, skip).Ok?
    ensures NoneJoined(ld.ParseArrayDef(kids, t, idx, skip).value.0)
  {
    hide Nonwhite, GetString, Loader.ItemSlot, Loader.ParseDefs, Loader.ParseArrayDefs, Decimal, NoneJoined;
    SlotNoneJoined(ld, kids, idx);
    var (base, j) := if skip then (kids, idx) else ld.ItemSlot(kids, idx);
    var r := ld.ParseArrayDef(kids, t, idx, skip).value.0;
    if !skip {
      assert |r| > 0 && r == base + [r[|r| - 1]] && !Joined(r[|r| - 1].value);
      NoneJoinedAppend(base, r[|r| - 1]);
    }
  }

  lemma {:induction false} ItemsNotJoined(ld: Loader, kids: seq<Node>, t: string, idx: nat, skip: bool)
    requires NoneJoined(kids) && ld.ParseArrayDefs(kids, t, idx, skip).Ok?
    ensures NoneJoined(ld.ParseArrayDefs(kids, t, idx, skip).value)
    decreases |t|
  {
    hide Nonwhite, Loader.ParseArrayDef, NoneJoined;
    var n := Nonwhite(t);
    if n.c != ']' {
      ItemNotJoined(ld, kids, Back(n), idx, skip);
      var item := ld.ParseArrayDef(kids, Back(n), idx, skip);
      ItemsNotJoined(ld, item.value.0, item.rest, item.value.1 + 1, skip);
    }
  }

  /** The text of an array that holds a joined compound never denotes that array, wherever it stands. */
  lemma JoinedItemLost(ld: Loader, w: Writer, kids: seq<Node>, level: nat, t: string, u: string)
    requires IsArray(kids) && !NoneJoined(kids)
    ensures !Denotes(ld, Nonwhite(w.SaveValue(Compound(kids, false), level) + t), Compound(kids, false), u)
  {
    hide Loader.ParseArrayDefs, IsArrayItem, NoneJoined, Writer.SaveChildren;
    BlockText(w, kids, level, t);
    var s := w.SaveValue(Compound(kids, false), level) + t;
    assert s[0] == '[' && Nonwhite(s) == Char('[', s[1..]);
    if ld.ParseArrayDefs([], s[1..], 0, false).Ok? {
      NothingJoined();
      ItemsNotJoined(ld, [], s[1..], 0, false);
    }
  }

  lemma NothingJoined()
    ensures NoneJoined([])
  {
  }
}
