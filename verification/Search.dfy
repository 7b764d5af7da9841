/** Searching a tree by a dotted key (conf.c:1165-1182, 3452-3523, 3636-3730). */
module Searching {
  import opened Numbers
  import opened Tree

  /** strchr(key, '.') */
  function FirstDot(key: string): (r: Option<nat>)
    ensures r.Some? ==> r.value < |key| && key[r.value] == '.'
    ensures r.Some? ==> forall i :: 0 <= i < r.value ==> key[i] != '.'
    ensures r.None? ==> forall i :: 0 <= i < |key| ==> key[i] != '.'
  {
    if key == [] then None
    else if key[0] == '.' then Some(0)
    else match FirstDot(key[1..]) case None => None case Some(i) => Some(i + 1)
  }

  function Child(v: Value, id: string): Option<Node> {
    if !v.Compound? then None
    else match Find(v.kids, id) case None => None case Some(i) => Some(v.kids[i])
  }

  /** snd_config_search: one id after the other, down from v. */
  function Search(v: Value, key: string): Option<Node>
    decreases |key|
  {
    match FirstDot(key)
    case None => Child(v, key)
    case Some(d) =>
      match Child(v, key[..d])
      case None => None
      case Some(n) => Search(n.value, key[d + 1..])
  }

  /** The loop of the search macro. */
  method RunSearch(v: Value, key: string) returns (r: Option<Node>)
    ensures r == Search(v, key)
  {
    var config, k := v, key;
    while true
      invariant Search(config, k) == Search(v, key)
      decreases |k|
    {
      if !config.Compound? {
        return None;
      }
      var d := FirstDot(k);
      if d.None? {
        return Child(config, k);
      }
      var n := Child(config, k[..d.value]);
      if n.None? {
        return None;
      }
      config, k := n.value.value, k[d.value + 1..];
    }
  }

  lemma FirstDotUnique(key: string, d: nat)
    requires d < |key| && key[d] == '.' && forall i :: 0 <= i < d ==> key[i] != '.'
    ensures FirstDot(key) == Some(d)
  {
  }

  /** Searching `k1.k2` is searching k1 and then k2 below what was found, whatever dots the keys contain. */
  lemma {:induction false} SearchComposes(v: Value, k1: string, k2: string)
    ensures Search(v, k1 + ['.'] + k2) ==
            match Search(v, k1)
            case None => None
            case Some(n) => Search(n.value, k2)
    decreases |k1|
  {
    var key := k1 + ['.'] + k2;
    match FirstDot(k1)
    case None =>
      FirstDotUnique(key, |k1|);
      assert key[..|k1|] == k1 && key[|k1| + 1..] == k2;
    case Some(d) =>
      FirstDotUnique(key, d);
      assert key[..d] == k1[..d] && key[d + 1..] == k1[d + 1..] + ['.'] + k2;
      var n := Child(v, k1[..d]);
      if n.Some? {
        SearchComposes(n.value.value, k1[d + 1..], k2);
      }
  }

  /** snd_config_searchv: one search after the other. */
  function SearchV(v: Value, keys: seq<string>): Option<Node>
    requires keys != []
    decreases |keys|
  {
    match Search(v, keys[0])
    case None => None
    case Some(n) => if |keys| == 1 then Some(n) else SearchV(n.value, keys[1..])
  }

  function JoinDots(keys: seq<string>): string
    requires keys != []
  {
    if |keys| == 1 then keys[0] else keys[0] + ['.'] + JoinDots(keys[1..])
  }

  /** Any list of keys searches like the one key made of them. */
  lemma {:induction false} SearchVIsSearch(v: Value, keys: seq<string>)
    requires keys != []
    ensures SearchV(v, keys) == Search(v, JoinDots(keys))
    decreases |keys|
  {
    if |keys| > 1 {
      SearchComposes(v, keys[0], JoinDots(keys[1..]));
      var n := Search(v, keys[0]);
      if n.Some? {
        SearchVIsSearch(n.value.value, keys[1..]);
      }
    }
  }
}

/** Expanding `$` strings (conf.c:4897-5124). */
module Expansion {
  import opened Numbers
  import opened Tree
  import opened Arithmetic
  import opened Evaluator
  import opened Searching

  const ARGS := "@args"

  predicate IsVariable(v: Tree.Value) {
    v.Str? && v.s != [] && v.s[0] == '$'
  }

  /** One node: dropped, replaced under its own id, or kept. */
  function Expand(vars: Vars, n: Node): (r: Outcome<Option<Node>>)
    ensures r.Computed? && r.v.Some? ==> r.v.value.id == n.id
    decreases n, 1
  {
    if n.value.Compound? then
      if n.id == ARGS then Computed(None)
      else
        match ExpandKids(vars, n.value.kids)
        case Computed(kids) => Computed(Some(Node(n.id, Compound(kids, n.value.join))))
        case Failed => Failed
        case Undefined => Undefined
    else if IsVariable(n.value) then
      match EvaluateString(vars, n.value.s)
      case Computed(None) => Computed(None)
      case Computed(Some(v)) => Computed(Some(Node(n.id, v)))
      case Failed => Failed
      case Undefined => Undefined
    else Computed(Some(n))
  }

  function ToSeq(n: Option<Node>): seq<Node> {
    match n case None => [] case Some(k) => [k]
  }

  function ExpandKids(vars: Vars, kids: seq<Node>): Outcome<seq<Node>>
    decreases kids, 0
  {
    if kids == [] then Computed([])
    else
      match Expand(vars, kids[0])
      case Failed => Failed
      case Undefined => Undefined
      case Computed(n) =>
        match ExpandKids(vars, kids[1..])
        case Failed => Failed
        case Undefined => Undefined
        case Computed(rest) => Computed(ToSeq(n) + rest)
  }

  // ----- nothing left to expand

  /** No `$` string and no `@args` compound below or at this node. */
  predicate Ground(n: Node) {
    && !IsVariable(n.value)
    && (n.value.Compound? ==> n.id != ARGS && forall k | k in n.value.kids :: Ground(k))
  }

  /** Every value a variable can have is free of variables and `@args` inside. */
  ghost predicate GroundVars(vars: Vars) {
    forall name, id | vars(name).Found? && id != ARGS :: Ground(Node(id, vars(name).value))
  }

  /** The string is a variable, not an expression, and its value is a compound. */
  predicate GivesCompound(vars: Vars, s: string) {
    && s != [] && s[0] == '$' && !(|s| > 1 && s[1] == '[')
    && vars(s[1..]).Found? && vars(s[1..]).value.Compound?
  }

  /** No node called `@args` that expansion reaches is a variable with a compound value. */
  predicate ArgsStable(vars: Vars, n: Node) {
    if n.value.Compound? then n.id == ARGS || forall k | k in n.value.kids :: ArgsStable(vars, k)
    else n.id == ARGS && IsVariable(n.value) ==> !GivesCompound(vars, n.value.s)
  }

  lemma {:induction false} GroundExpands(vars: Vars, n: Node)
    requires Ground(n)
    ensures Expand(vars, n) == Computed(Some(n))
    decreases n, 1
  {
    if n.value.Compound? {
      GroundKidsExpand(vars, n.value.kids);
    }
  }

  lemma {:induction false} GroundKidsExpand(vars: Vars, kids: seq<Node>)
    requires forall k | k in kids :: Ground(k)
    ensures ExpandKids(vars, kids) == Computed(kids)
    decreases kids, 0
  {
    if kids != [] {
      GroundExpands(vars, kids[0]);
      GroundKidsExpand(vars, kids[1..]);
      assert [kids[0]] + kids[1..] == kids;
    }
  }

  /** What a variable or an expression gives: a value that stays as it is, except for a compound called `@args`. */
  lemma EvaluatedStays(vars: Vars, s: string, id: string)
    requires GroundVars(vars) && s != [] && s[0] == '$'
    ensures var r := EvaluateString(vars, s);
            r.Computed? && r.v.Some? ==>
              && (r.v.value.Compound? <==> GivesCompound(vars, s))
              && (id != ARGS || !r.v.value.Compound? ==> Ground(Node(id, r.v.value)))
  {
    hide Steps;
    if |s| > 1 && s[1] == '[' {
      var r := Eval(vars, s);
      assert r.Computed? ==> r.v.Integer? || r.v.Integer64?;
    } else if vars(s[1..]).Found? {
      var other := if id == ARGS then [] else id;
      assert Ground(Node(other, vars(s[1..]).value));
    }
  }

  predicate Fixed(vars: Vars, n: Node) {
    Expand(vars, n) == Computed(Some(n))
  }

  lemma {:induction false} ExpandKidsShrinks(vars: Vars, kids: seq<Node>)
    ensures ExpandKids(vars, kids).Computed? ==> |ExpandKids(vars, kids).v| <= |kids|
  {
    if kids != [] {
      ExpandKidsShrinks(vars, kids[1..]);
    }
  }

  /** A list of children stays as it is exactly when each child does. */
  lemma {:induction false} KidsFixed(vars: Vars, kids: seq<Node>)
    ensures ExpandKids(vars, kids) == Computed(kids) <==> forall k | k in kids :: Fixed(vars, k)
  {
    if kids != [] {
      KidsFixed(vars, kids[1..]);
      ExpandKidsShrinks(vars, kids[1..]);
      assert forall k :: k in kids <==> k == kids[0] || k in kids[1..];
      assert kids == [kids[0]] + kids[1..];
      var e, rest := Expand(vars, kids[0]), ExpandKids(vars, kids[1..]);
      assert kids[0] in kids;
      if ExpandKids(vars, kids) == Computed(kids) {
        assert |ToSeq(e.v) + rest.v| == |kids|;
        assert (ToSeq(e.v) + rest.v)[0] == kids[0] && (ToSeq(e.v) + rest.v)[1..] == kids[1..];
      }
    }
  }

  /** A second expansion changes nothing exactly when no reached `@args` is a variable with a compound value. */
  lemma {:induction false} ExpandIdempotent(vars: Vars, n: Node)
    requires GroundVars(vars) && Expand(vars, n).Computed? && Expand(vars, n).v.Some?
    ensures Expand(vars, Expand(vars, n).v.value) == Expand(vars, n) <==> ArgsStable(vars, n)
    decreases n, 1
  {
    hide EvaluateString;
    var m := Expand(vars, n).v.value;
    if n.value.Compound? {
      KidsIdempotent(vars, n.value.kids);
      KidsFixed(vars, m.value.kids);
    } else if IsVariable(n.value) {
      EvaluatedStays(vars, n.value.s, n.id);
      if Ground(m) {
        GroundExpands(vars, m);
      }
    }
  }

  lemma {:induction false} KidsIdempotent(vars: Vars, kids: seq<Node>)
    requires GroundVars(vars) && ExpandKids(vars, kids).Computed?
    ensures (forall m | m in ExpandKids(vars, kids).v :: Fixed(vars, m)) <==> forall k | k in kids :: ArgsStable(vars, k)
    decreases kids, 0
  {
    if kids != [] {
      KidsIdempotent(vars, kids[1..]);
      var e, rest := Expand(vars, kids[0]), ExpandKids(vars, kids[1..]).v;
      assert forall k :: k in kids <==> k == kids[0] || k in kids[1..];
      if e.v.Some? {
        ExpandIdempotent(vars, kids[0]);
        assert kids[0] in kids && e.v.value in [e.v.value] + rest;
        assert Fixed(vars, e.v.value) <==> ArgsStable(vars, kids[0]);
        assert forall m :: m in [e.v.value] + rest <==> m == e.v.value || m in rest;
      } else {
        DroppedStable(vars, kids[0]);
      }
    }
  }

  lemma DroppedStable(vars: Vars, n: Node)
    requires Expand(vars, n) == Computed(None)
    ensures ArgsStable(vars, n)
  {
    hide Steps;
  }

  /** A variable called `@args` with a compound value survives once and is dropped the second time. */
  lemma ArgsVariableVanishes(vars: Vars, s: string)
    requires GivesCompound(vars, s)
    ensures var v := vars(s[1..]).value;
            && Expand(vars, Node(ARGS, Str(s))) == Computed(Some(Node(ARGS, v)))
            && Expand(vars, Node(ARGS, v)) == Computed(None)
  {
  }

  // ----- expansion and search

  /** What a child list has under an id after expansion. */
  lemma {:induction false} FindExpanded(vars: Vars, kids: seq<Node>, i: nat)
    requires DistinctIds(kids) && i < |kids| && ExpandKids(vars, kids).Computed?
    ensures var ks, e := ExpandKids(vars, kids).v, Expand(vars, kids[i]);
            && e.Computed?
            && match e.v
               case None => Find(ks, kids[i].id).None?
               case Some(m) => Find(ks, kids[i].id).Some? && ks[Find(ks, kids[i].id).value] == m
    decreases |kids|
  {
    var n, rest := Expand(vars, kids[0]).v, kids[1..];
    var ks := ExpandKids(vars, rest).v;
    assert ExpandKids(vars, kids).v == ToSeq(n) + ks;
    if i == 0 {
      forall j | 0 <= j < |ks|
        ensures ks[j].id != kids[0].id
      {
        ExpandedIds(vars, rest, ks[j]);
        var k :| k in rest && k.id == ks[j].id;
        var m :| 0 <= m < |rest| && rest[m] == k;
        assert kids[m + 1] == k;
      }
    } else {
      FindExpanded(vars, rest, i - 1);
      assert rest[i - 1] == kids[i];
      if n.Some? {
        assert (ToSeq(n) + ks)[1..] == ks;
      } else {
        assert ToSeq(n) + ks == ks;
      }
    }
  }

  lemma {:induction false} ExpandedIds(vars: Vars, kids: seq<Node>, m: Node)
    requires ExpandKids(vars, kids).Computed? && m in ExpandKids(vars, kids).v
    ensures exists k :: k in kids && k.id == m.id
    decreases |kids|
  {
    if kids != [] {
      if m in ToSeq(Expand(vars, kids[0]).v) {
        assert kids[0] in kids;
      } else {
        ExpandedIds(vars, kids[1..], m);
        var k :| k in kids[1..] && k.id == m.id;
        assert k in kids;
      }
    }
  }

  /** No compound that the key goes through is called `@args`. */
  predicate PathClear(v: Tree.Value, key: string)
    decreases |key|
  {
    match FirstDot(key)
    case None => true
    case Some(d) =>
      match Child(v, key[..d])
      case None => true
      case Some(n) => n.id != ARGS && PathClear(n.value, key[d + 1..])
  }

  /** A node found before expansion is found after it under the same key, expanded, unless it was dropped on the way. */
  lemma {:induction false} ExpandThenSearch(vars: Vars, v: Tree.Value, key: string)
    requires v.Compound? && WellFormed(v) && ExpandKids(vars, v.kids).Computed? && Search(v, key).Some?
    ensures var w, n := Compound(ExpandKids(vars, v.kids).v, v.join), Search(v, key).value;
            && (PathClear(v, key) ==> Expand(vars, n).Computed? && Search(w, key) == Expand(vars, n).v)
            && (!PathClear(v, key) ==> Search(w, key) == None)
    decreases |key|
  {
    hide EvaluateString, FirstDot, ExpandKids, Expand, Find;
    var d := FirstDot(key);
    var id := if d.None? then key else key[..d.value];
    var i := Find(v.kids, id).value;
    FindExpanded(vars, v.kids, i);
    var c := v.kids[i];
    assert c in v.kids;
    if d.Some? {
      var rest := key[d.value + 1..];
      SearchNeedsCompound(c.value, rest);
      ExpandCompound(vars, c);
      if c.id != ARGS {
        ExpandThenSearch(vars, c.value, rest);
      }
    }
  }

  lemma ExpandCompound(vars: Vars, n: Node)
    requires n.value.Compound? && Expand(vars, n).Computed?
    ensures n.id == ARGS ==> Expand(vars, n).v == None
    ensures n.id != ARGS ==>
              && ExpandKids(vars, n.value.kids).Computed?
              && Expand(vars, n).v == Some(Node(n.id, Compound(ExpandKids(vars, n.value.kids).v, n.value.join)))
  {
  }

  lemma SearchNeedsCompound(v: Tree.Value, key: string)
    requires Search(v, key).Some?
    ensures v.Compound?
  {
  }
}
