/** Which trees snd_config_save can write so that they are read back, and what they are read back as. */
module SavedForm {
  import opened Numbers
  import opened Lexer
  import opened Tree
  import opened Parser
  import opened TokenPrinter
  import opened TokenRoundTrip
  import opened Printer

  // ----- the trees that survive

  /** An id that survives and is not taken for a mode prefix. */
  predicate IdOk(id: string) {
    Survives(id, true) && (!Quoted(id, true) ==> !IsModeChar(id[0]))
  }

  /** A real whose text, blank padding aside, reads back as that real and not as an integer. */
  predicate RealOk(ld: Loader, w: Writer, r: real) {
    var (s, pad) := FreeString(w.formatReal(r), false);
    && s != [] && (IsDigit(s[0]) || s[0] == '-')
    && NUL !in s
    && (forall i :: 0 <= i < |pad| ==> pad[i] == ' ')
    && SafeStrtoll(s) == None && ld.strtod(s) == Some(r)
  }

  /** Trees whose texts survive; arrays hold no joined compound, which would be written as `0.id`. */
  predicate ValueOk(ld: Loader, w: Writer, v: Value) {
    match v
    case Integer(i) => InLong(i)
    case Integer64(i) => InLong(i)
    case Real(r) => RealOk(ld, w, r)
    case Str(s) => Survives(s, false)
    case Compound(kids, join) =>
      && DistinctIds(kids)
      && (forall k | k in kids :: IdOk(k.id) && ValueOk(ld, w, k.value))
      && (!join && IsArray(kids) ==> forall k | k in kids :: !Joined(k.value))
  }

  predicate KidsOk(ld: Loader, w: Writer, kids: seq<Node>) {
    && DistinctIds(kids)
    && forall k | k in kids :: IdOk(k.id) && ValueOk(ld, w, k.value)
  }

  // ----- what a saved tree is loaded as

  /** Integers take the type of their size, array items their decimal index, and empty joined compounds vanish. */
  function Norm(v: Value): Value
    decreases v, 1
  {
    match v
    case Integer(i) => Number(i)
    case Integer64(i) => Number(i)
    case Compound(kids, join) =>
      Compound(if !join && IsArray(kids) then NormItems(kids, 0) else NormKids(kids), join)
    case _ => v
  }

  function Number(i: int): Value {
    if i <= INT_MAX then Integer(i) else Integer64(i)
  }

  function NormItems(kids: seq<Node>, idx: nat): (r: seq<Node>)
    ensures |r| == |kids|
    decreases kids, 0
  {
    if kids == [] then []
    else [Node(Decimal(idx), Norm(kids[0].value))] + NormItems(kids[1..], idx + 1)
  }

  function NormKids(kids: seq<Node>): seq<Node>
    decreases kids, 0
  {
    if kids == [] then [] else NormChild(kids[0]) + NormKids(kids[1..])
  }

  function NormChild(k: Node): (r: seq<Node>)
    ensures |r| <= 1 && (r != [] ==> r[0].id == k.id)
    ensures !Joined(k.value) ==> r == [Node(k.id, Norm(k.value))]
    decreases k, 0
  {
    if Joined(k.value) then
      var sub := NormKids(k.value.kids);
      if sub == [] then [] else [Node(k.id, Compound(sub, true))]
    else [Node(k.id, Norm(k.value))]
  }

  /** The trees that are their own normal form. */
  predicate Canonical(v: Value) {
    match v
    case Integer(i) => i <= INT_MAX
    case Integer64(i) => i > INT_MAX
    case Compound(kids, join) =>
      && (forall k | k in kids :: Canonical(k.value))
      && (forall k | k in kids && Joined(k.value) :: k.value.kids != [])
      && (!join && IsArray(kids) ==> forall i :: 0 <= i < |kids| ==> kids[i].id == Decimal(i))
    case _ => true
  }

  predicate CanonicalKids(kids: seq<Node>) {
    forall k | k in kids :: Canonical(k.value) && (Joined(k.value) ==> k.value.kids != [])
  }

  lemma NormKidsLength(kids: seq<Node>)
    ensures |NormKids(kids)| <= |kids|
  {
  }

  lemma {:induction false} NormKidsIds(kids: seq<Node>, n: Node)
    requires n in NormKids(kids)
    ensures exists k :: k in kids && k.id == n.id
  {
    if n in NormChild(kids[0]) {
      assert kids[0] in kids;
    } else {
      NormKidsIds(kids[1..], n);
      var k :| k in kids[1..] && k.id == n.id;
      assert k in kids;
    }
  }

  lemma {:induction false} NormKidsDistinct(kids: seq<Node>)
    requires DistinctIds(kids)
    ensures DistinctIds(NormKids(kids))
  {
    if kids != [] {
      NormKidsDistinct(kids[1..]);
      forall n | n in NormKids(kids[1..])
        ensures n.id != kids[0].id
      {
        NormKidsIds(kids[1..], n);
        var k :| k in kids[1..] && k.id == n.id;
        var j :| 0 <= j < |kids[1..]| && kids[1..][j] == k;
        assert kids[j + 1] == k;
      }
    }
  }

  // ----- exactly the canonical trees are their own normal form

  lemma {:induction false} NormIdentity(v: Value)
    requires WellJoined(v)
    ensures Norm(v) == v <==> Canonical(v)
    decreases v, 1
  {
    if v.Compound? {
      if !v.join && IsArray(v.kids) {
        NormItemsIdentity(v.kids);
      } else {
        NormKidsIdentity(v.kids);
      }
    }
  }

  /** No array holds a joined compound. */
  predicate WellJoined(v: Value) {
    v.Compound? ==>
      && (forall k | k in v.kids :: WellJoined(k.value))
      && (!v.join && IsArray(v.kids) ==> forall k | k in v.kids :: !Joined(k.value))
  }

  lemma {:induction false} NormItemsAt(kids: seq<Node>, idx: nat, i: nat)
    requires i < |kids|
    ensures NormItems(kids, idx)[i] == Node(Decimal(idx + i), Norm(kids[i].value))
  {
    if i > 0 {
      NormItemsAt(kids[1..], idx + 1, i - 1);
    }
  }

  lemma {:induction false} NormItemsIdentity(kids: seq<Node>)
    requires forall k | k in kids :: WellJoined(k.value) && !Joined(k.value)
    ensures NormItems(kids, 0) == kids <==>
              forall i :: 0 <= i < |kids| ==> kids[i].id == Decimal(i) && Canonical(kids[i].value)
    decreases kids, 0
  {
    forall i | 0 <= i < |kids|
      ensures NormItems(kids, 0)[i] == Node(Decimal(i), Norm(kids[i].value))
      ensures Norm(kids[i].value) == kids[i].value <==> Canonical(kids[i].value)
    {
      NormItemsAt(kids, 0, i);
      NormIdentity(kids[i].value);
    }
  }

  lemma {:induction false} NormChildIdentity(k: Node)
    requires WellJoined(k.value)
    ensures NormChild(k) == [k] <==> Canonical(k.value) && (Joined(k.value) ==> k.value.kids != [])
    decreases k, 0
  {
    if Joined(k.value) {
      NormKidsIdentity(k.value.kids);
    } else {
      NormIdentity(k.value);
    }
  }

  lemma {:induction false} NormKidsIdentity(kids: seq<Node>)
    requires forall k | k in kids :: WellJoined(k.value)
    ensures NormKids(kids) == kids <==> CanonicalKids(kids)
    decreases kids, 0
  {
    if kids != [] {
      NormKidsIdentity(kids[1..]);
      NormChildIdentity(kids[0]);
      NormKidsLength(kids[1..]);
      assert kids == [kids[0]] + kids[1..];
      if NormKids(kids) == kids {
        assert |NormChild(kids[0])| == 1;
        assert NormKids(kids)[1..] == NormKids(kids[1..]);
        assert NormKids(kids)[0] == NormChild(kids[0])[0];
      }
    }
  }
}
