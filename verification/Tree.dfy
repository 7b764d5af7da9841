/** Configuration trees as values. */
module Tree {
  import opened Numbers

  datatype Node = Node(id: string, value: Value)

  datatype Value =
    | Integer(i: int)
    | Integer64(i64: int)
    | Real(r: real)
    | Str(s: string)
    | Compound(kids: seq<Node>, join: bool)

  /** _snd_config_search: the first child with the given id. */
  function Find(kids: seq<Node>, id: string): (r: Option<nat>)
    ensures r.Some? ==> r.value < |kids| && kids[r.value].id == id
    ensures r.Some? ==> forall j :: 0 <= j < r.value ==> kids[j].id != id
    ensures r.None? ==> forall j :: 0 <= j < |kids| ==> kids[j].id != id
  {
    if kids == [] then None
    else if kids[0].id == id then Some(0)
    else
      match Find(kids[1..], id)
      case None => None
      case Some(i) => Some(i + 1)
  }

  function Delete(kids: seq<Node>, i: nat): seq<Node>
    requires i < |kids|
  {
    kids[..i] + kids[i + 1..]
  }

  predicate DistinctIds(kids: seq<Node>) {
    forall i, j :: 0 <= i < j < |kids| ==> kids[i].id != kids[j].id
  }

  /** Sibling ids are pairwise distinct at every level. */
  predicate WellFormed(v: Value) {
    v.Compound? ==>
      && DistinctIds(v.kids)
      && forall k | k in v.kids :: WellFormed(k.value)
  }

  predicate WellFormedKids(kids: seq<Node>) {
    WellFormed(Compound(kids, false))
  }

  /** check_array_item: all digits, and the number they read as, with the base taken from a prefix, is the index. */
  predicate IsArrayItem(id: string, index: nat) {
    && (forall j :: 0 <= j < |id| ==> IsDigit(id[j]))
    && SafeStrtoll(id) == Some(index)
  }

  /** snd_config_is_array, which counts items, is non-zero. */
  predicate IsArray(kids: seq<Node>) {
    kids != [] && forall i :: 0 <= i < |kids| ==> IsArrayItem(kids[i].id, i)
  }

  lemma FindUnique(kids: seq<Node>, i: nat)
    requires DistinctIds(kids) && i < |kids|
    ensures Find(kids, kids[i].id) == Some(i)
  {
  }

  /** Of a set of paths, those that begin with the id, behind it. */
  ghost function PathsIn(paths: iset<seq<string>>, id: string): iset<seq<string>> {
    iset path: seq<string> | [id] + path in paths
  }
}
