/** snd_config_merge (conf.c:2253-2344) on trees as values. */
module Merging {
  import opened Numbers
  import opened Tree
  import opened Parser
  import opened Loading

  /** The items of an array under new indices, from idx on. */
  function Renumber(kids: seq<Node>, idx: nat): (r: seq<Node>)
    ensures |r| == |kids|
  {
    if kids == [] then [] else [Node(Decimal(idx), kids[0].value)] + Renumber(kids[1..], idx + 1)
  }

  /** Only compounds merge; anything else is replaced by the source. */
  function Merge(dst: Value, src: Value, override: bool): Value
    decreases src, 2
  {
    if !dst.Compound? || !src.Compound? then src
    else if IsArray(dst.kids) && IsArray(src.kids) then
      Compound(dst.kids + Renumber(src.kids, |dst.kids|), dst.join)
    else Compound(MergeKids(dst.kids, src.kids, override), dst.join)
  }

  /** The loop over the source children. */
  function MergeKids(dst: seq<Node>, src: seq<Node>, override: bool): seq<Node>
    decreases src, 1
  {
    if src == [] then dst else MergeKids(MergeChild(dst, src[0], override), src[1..], override)
  }

  function MergeChild(dst: seq<Node>, k: Node, override: bool): seq<Node>
    decreases k, 1
  {
    match Find(dst, k.id)
    case None => dst + [k]
    case Some(i) => dst[i := Node(k.id, MergePair(dst[i].value, k.value, override))]
  }

  function MergePair(d: Value, s: Value, override: bool): Value
    decreases s, 3
  {
    if override || !s.Compound? || !d.Compound? then s else Merge(d, s, false)
  }

  // ----- the loop as it runs

  method RunMerge(dst: seq<Node>, src: seq<Node>, override: bool) returns (r: seq<Node>)
    ensures r == MergeKids(dst, src, override)
    decreases src, 0
  {
    r := dst;
    var si := 0;
    assert src[0..] == src;
    while si < |src|
      invariant 0 <= si <= |src|
      invariant MergeKids(r, src[si..], override) == MergeKids(dst, src, override)
    {
      var sn, di, found := src[si], 0, false;
      ghost var before := r;
      while di < |r| && !found
        invariant 0 <= di <= |r|
        invariant !found ==> r == before && forall j :: 0 <= j < di ==> r[j].id != sn.id
        invariant found ==> r == MergeChild(before, sn, override)
        decreases |r| - di, !found
      {
        if r[di].id == sn.id {
          assert Find(r, sn.id) == Some(di);
          var v := RunPair(r[di].value, sn.value, override);
          r := r[di := Node(sn.id, v)];
          found := true;
        } else {
          di := di + 1;
        }
      }
      if !found {
        assert Find(r, sn.id) == None;
        r := r + [sn];
      }
      assert src[si..][1..] == src[si + 1..];
      si := si + 1;
    }
  }

  /** A source child and its partner: substituted, or merged one level down. */
  method RunPair(d: Value, s: Value, override: bool) returns (v: Value)
    ensures v == MergePair(d, s, override)
    decreases s, 0
  {
    if override || !s.Compound? || !d.Compound? {
      return s;
    }
    if IsArray(d.kids) && IsArray(s.kids) {
      var more := RunArrayMerge(d.kids, s.kids);
      return Compound(more, d.join);
    }
    var kids := RunMerge(d.kids, s.kids, false);
    return Compound(kids, d.join);
  }

  method RunArrayMerge(dst: seq<Node>, src: seq<Node>) returns (r: seq<Node>)
    ensures r == dst + Renumber(src, |dst|)
  {
    r := dst;
    var i := 0;
    assert src[0..] == src;
    while i < |src|
      invariant 0 <= i <= |src| && |r| == |dst| + i
      invariant r + Renumber(src[i..], |r|) == dst + Renumber(src, |dst|)
    {
      assert src[i..][1..] == src[i + 1..];
      var n := Node(Decimal(|r|), src[i].value);
      assert r + Renumber(src[i..], |r|) == r + [n] + Renumber(src[i + 1..], |r| + 1);
      r := r + [n];
      i := i + 1;
    }
  }

  // ----- what the loop computes

  /** A destination child with what the source has under the same id. */
  function Paired(n: Node, src: seq<Node>, override: bool): (r: Node)
    ensures r.id == n.id
  {
    match Find(src, n.id)
    case None => n
    case Some(j) => Node(n.id, MergePair(n.value, src[j].value, override))
  }

  function PairedAll(dst: seq<Node>, src: seq<Node>, override: bool): (r: seq<Node>)
    ensures |r| == |dst|
    ensures forall i :: 0 <= i < |r| ==> r[i] == Paired(dst[i], src, override)
  {
    if dst == [] then [] else [Paired(dst[0], src, override)] + PairedAll(dst[1..], src, override)
  }

  lemma {:induction false} PairedStep(dst: seq<Node>, k: Node, src: seq<Node>, override: bool)
    requires DistinctIds(dst) && DistinctIds([k] + src)
    ensures Find(dst, k.id).Some? ==>
              PairedAll(MergeChild(dst, k, override), src, override) == PairedAll(dst, [k] + src, override)
    ensures Find(dst, k.id).None? ==>
              PairedAll(MergeChild(dst, k, override), src, override) == PairedAll(dst, [k] + src, override) + [k]
  {
    hide MergePair, DistinctIds;
    var m := MergeChild(dst, k, override);
    assert ([k] + src)[1..] == src;
    HeadAbsent(k, src);
    forall i | 0 <= i < |dst|
      ensures Paired(m[i], src, override) == Paired(dst[i], [k] + src, override)
    {
      if dst[i].id == k.id {
        FindUnique(dst, i);
      }
    }
  }

  lemma HeadAbsent(k: Node, src: seq<Node>)
    requires DistinctIds([k] + src)
    ensures Find(src, k.id).None? && DistinctIds(src)
  {
    forall j | 0 <= j < |src|
      ensures src[j].id != k.id
    {
      assert ([k] + src)[j + 1] == src[j] && ([k] + src)[0] == k;
    }
    forall i, j | 0 <= i < j < |src|
      ensures src[i].id != src[j].id
    {
      assert ([k] + src)[i + 1] == src[i] && ([k] + src)[j + 1] == src[j];
    }
  }

  lemma MergeChildDistinct(dst: seq<Node>, k: Node, override: bool)
    requires DistinctIds(dst)
    ensures DistinctIds(MergeChild(dst, k, override))
    ensures Ids(MergeChild(dst, k, override)) == Ids(dst) + {k.id}
  {
    hide MergePair;
    var m := MergeChild(dst, k, override);
    forall s
      ensures s in Ids(m) <==> s in Ids(dst) + {k.id}
    {
      if s in Ids(m) {
        var n :| n in m && n.id == s;
        var i :| 0 <= i < |m| && m[i] == n;
        assert i < |dst| ==> dst[i].id == s && dst[i] in dst;
      }
      if s in Ids(dst) {
        var n :| n in dst && n.id == s;
        var i :| 0 <= i < |dst| && dst[i] == n;
        assert m[i].id == s && m[i] in m;
      }
      if s == k.id {
        if Find(dst, k.id).Some? {
          assert m[Find(dst, k.id).value] in m;
        } else {
          assert m[|dst|] in m;
        }
      }
    }
  }

  /** First the destination children, each with its partner, then the new source children, both in their order. */
  lemma {:induction false} MergeMeaning(dst: seq<Node>, src: seq<Node>, override: bool)
    requires DistinctIds(dst) && DistinctIds(src)
    ensures MergeKids(dst, src, override) == PairedAll(dst, src, override) + Without(src, Ids(dst))
    decreases src
  {
    if src == [] {
      NoPartners(dst, override);
    } else {
      hide MergePair, Ids, MergeChild;
      var k, rest := src[0], src[1..];
      assert src == [k] + rest;
      HeadAbsent(k, rest);
      var m := MergeChild(dst, k, override);
      MergeChildDistinct(dst, k, override);
      MergeMeaning(m, rest, override);
      PairedStep(dst, k, rest, override);
      WithoutStep(dst, k, rest);
    }
  }

  lemma NoPartners(dst: seq<Node>, override: bool)
    ensures PairedAll(dst, [], override) == dst
    ensures PairedAll(dst, [], override) + Without([], Ids(dst)) == dst
  {
  }

  lemma WithoutStep(dst: seq<Node>, k: Node, rest: seq<Node>)
    requires Find(rest, k.id).None?
    ensures Without(rest, Ids(dst) + {k.id}) == Without(rest, Ids(dst))
    ensures Without([k] + rest, Ids(dst)) == (if Find(dst, k.id).None? then [k] else []) + Without(rest, Ids(dst))
  {
    assert ([k] + rest)[1..] == rest;
    WithoutTwice(rest, Ids(dst), {k.id});
    forall n | n in Without(rest, Ids(dst))
      ensures n.id !in {k.id}
    {
      WithoutIn(rest, Ids(dst), n);
    }
    WithoutAbsent(Without(rest, Ids(dst)), {k.id});
    FoundIffId(dst, k.id);
  }

  lemma FoundIffId(kids: seq<Node>, id: string)
    ensures Find(kids, id).Some? <==> id in Ids(kids)
  {
    if id in Ids(kids) {
      var n :| n in kids && n.id == id;
      var i :| 0 <= i < |kids| && kids[i] == n;
    }
    if Find(kids, id).Some? {
      assert kids[Find(kids, id).value] in kids;
    }
  }

  // ----- sibling ids stay distinct

  lemma PairedDistinct(dst: seq<Node>, src: seq<Node>, override: bool)
    requires DistinctIds(dst)
    ensures DistinctIds(PairedAll(dst, src, override)) && Ids(PairedAll(dst, src, override)) == Ids(dst)
  {
    var p := PairedAll(dst, src, override);
    forall s
      ensures s in Ids(p) <==> s in Ids(dst)
    {
      FoundIffId(p, s);
      FoundIffId(dst, s);
      if Find(p, s).Some? {
        assert dst[Find(p, s).value].id == s;
      }
      if Find(dst, s).Some? {
        assert p[Find(dst, s).value].id == s;
      }
    }
  }

  lemma ConcatDistinct(a: seq<Node>, b: seq<Node>)
    requires DistinctIds(a) && DistinctIds(b) && forall k | k in b :: k.id !in Ids(a)
    ensures DistinctIds(a + b)
  {
    forall i, j | 0 <= i < |a| && 0 <= j < |b|
      ensures a[i].id != b[j].id
    {
      assert a[i] in a && b[j] in b;
      assert a[i].id in Ids(a);
    }
  }

  lemma MergeKidsDistinct(dst: seq<Node>, src: seq<Node>, override: bool)
    requires DistinctIds(dst) && DistinctIds(src)
    ensures DistinctIds(MergeKids(dst, src, override))
  {
    hide MergeKids, PairedAll, Without, DistinctIds;
    MergeMeaning(dst, src, override);
    PairedDistinct(dst, src, override);
    WithoutDistinct(src, Ids(dst));
    forall k | k in Without(src, Ids(dst))
      ensures k.id !in Ids(PairedAll(dst, src, override))
    {
      WithoutIn(src, Ids(dst), k);
    }
    ConcatDistinct(PairedAll(dst, src, override), Without(src, Ids(dst)));
  }

  // ----- the empty compound is a unit

  lemma MergeIntoEmpty(src: seq<Node>, override: bool)
    requires DistinctIds(src)
    ensures MergeKids([], src, override) == src
  {
    MergeMeaning([], src, override);
    assert Ids([]) == {};
    WithoutAbsent(src, {});
  }

  /** Merging with an empty compound on either side changes nothing but the join flag, which is the destination's. */
  lemma EmptyIsUnit(v: Value, join: bool, override: bool)
    requires v.Compound? && DistinctIds(v.kids)
    ensures Merge(v, Compound([], join), override) == v
    ensures Merge(Compound([], join), v, override) == Compound(v.kids, join)
  {
    MergeIntoEmpty(v.kids, override);
  }

  // ----- associativity

  lemma {:induction false} RenumberAt(kids: seq<Node>, idx: nat, i: nat)
    requires i < |kids|
    ensures Renumber(kids, idx)[i] == Node(Decimal(idx + i), kids[i].value)
  {
    if i > 0 {
      RenumberAt(kids[1..], idx + 1, i - 1);
    }
  }

  lemma {:induction false} RenumberConcat(a: seq<Node>, b: seq<Node>, idx: nat)
    ensures Renumber(a + b, idx) == Renumber(a, idx) + Renumber(b, idx + |a|)
  {
    if a == [] {
      assert a + b == b;
    } else {
      assert (a + b)[1..] == a[1..] + b;
      RenumberConcat(a[1..], b, idx + 1);
    }
  }

  lemma {:induction false} RenumberTwice(kids: seq<Node>, i: nat, j: nat)
    ensures Renumber(Renumber(kids, i), j) == Renumber(kids, j)
  {
    if kids != [] {
      RenumberTwice(kids[1..], i + 1, j + 1);
      assert Renumber(kids, i)[1..] == Renumber(kids[1..], i + 1);
    }
  }

  lemma DecimalIsItem(n: nat)
    requires InLong(n)
    ensures IsArrayItem(Decimal(n), n)
  {
    SafeStrtollOfPrintInt(n);
  }

  lemma ArrayConcatAt(a: seq<Node>, b: seq<Node>, i: nat)
    requires IsArray(a) && |a| + |b| <= LLONG_MAX && i < |a| + |b|
    ensures IsArrayItem((a + Renumber(b, |a|))[i].id, i)
  {
    hide IsArrayItem, Renumber, Decimal;
    if i >= |a| {
      RenumberAt(b, |a|, i - |a|);
      DecimalIsItem(i);
    }
  }

  /** Concatenated arrays are an array, as long as the indices fit. */
  lemma ArrayConcat(a: seq<Node>, b: seq<Node>)
    requires IsArray(a) && |a| + |b| <= LLONG_MAX
    ensures IsArray(a + Renumber(b, |a|))
  {
    hide IsArrayItem, Renumber;
    forall i | 0 <= i < |a| + |b|
      ensures IsArrayItem((a + Renumber(b, |a|))[i].id, i)
    {
      ArrayConcatAt(a, b, i);
    }
  }

  /** Where a merged list has an id, and what is there. */
  lemma FindMerged(b: seq<Node>, c: seq<Node>, id: string)
    requires DistinctIds(b) && DistinctIds(c)
    ensures var bc := MergeKids(b, c, false);
            match Find(b, id)
            case Some(j) => Find(bc, id).Some? && bc[Find(bc, id).value] == Paired(b[j], c, false)
            case None =>
              match Find(c, id)
              case Some(k) => Find(bc, id).Some? && bc[Find(bc, id).value] == c[k]
              case None => Find(bc, id).None?
  {
    hide MergeKids, DistinctIds, PairedAll;
    MergeMeaning(b, c, false);
    MergeKidsDistinct(b, c, false);
    var p, w := PairedAll(b, c, false), Without(c, Ids(b));
    FoundIffId(b, id);
    match Find(b, id)
    case Some(j) =>
      assert (p + w)[j] == Paired(b[j], c, false);
      FindUnique(p + w, j);
    case None =>
      match Find(c, id) {
        case Some(k) =>
          WithoutIn(c, Ids(b), c[k]);
          var m :| 0 <= m < |w| && w[m] == c[k];
          assert (p + w)[|p| + m] == c[k];
          FindUnique(p + w, |p| + m);
        case None =>
          NotFoundMerged(b, c, id);
      }
  }

  lemma NotFoundMerged(b: seq<Node>, c: seq<Node>, id: string)
    requires Find(b, id).None? && Find(c, id).None?
    ensures Find(PairedAll(b, c, false) + Without(c, Ids(b)), id).None?
  {
    hide Paired, Ids, Without;
    var p, w := PairedAll(b, c, false), Without(c, Ids(b));
    var all: seq<Node> := p + w;
    forall m | 0 <= m < |all|
      ensures all[m].id != id
    {
      if m >= |p| {
        WithoutIn(c, Ids(b), w[m - |p|]);
      } else {
        assert all[m].id == b[m].id;
      }
    }
  }

  lemma {:induction false} PairedWithout(b: seq<Node>, c: seq<Node>, ids: set<string>)
    ensures PairedAll(Without(b, ids), c, false) == Without(PairedAll(b, c, false), ids)
  {
    if b != [] {
      hide Paired;
      PairedWithout(b[1..], c, ids);
      assert PairedAll(b, c, false)[1..] == PairedAll(b[1..], c, false);
      var h := if b[0].id in ids then [] else [b[0]];
      PairedConcat(h, Without(b[1..], ids), c);
      assert Without(b, ids) == h + Without(b[1..], ids);
    }
  }

  lemma PairedConcat(a: seq<Node>, b: seq<Node>, c: seq<Node>)
    ensures PairedAll(a + b, c, false) == PairedAll(a, c, false) + PairedAll(b, c, false)
  {
  }

  lemma {:induction false} IdsOfMerge(dst: seq<Node>, src: seq<Node>, override: bool)
    requires DistinctIds(dst)
    ensures Ids(MergeKids(dst, src, override)) == Ids(dst) + Ids(src)
    decreases src
  {
    if src == [] {
      assert Ids(src) == {};
    } else {
      hide MergeChild;
      MergeChildDistinct(dst, src[0], override);
      IdsOfMerge(MergeChild(dst, src[0], override), src[1..], override);
      assert Ids(src) == {src[0].id} + Ids(src[1..]) by {
        assert src == [src[0]] + src[1..];
      }
    }
  }

  /** Merging one child with partners from both sides, in either order. */
  ghost predicate ChildAssoc(n: Node, b: seq<Node>, c: seq<Node>) {
    Paired(Paired(n, b, false), c, false) == Paired(n, MergeKids(b, c, false), false)
  }

  /** Both ways of merging three lists: first the children of a, then those new in b, then those new in c. */
  lemma ThreeLists(a: seq<Node>, b: seq<Node>, c: seq<Node>)
    requires DistinctIds(a) && DistinctIds(b) && DistinctIds(c)
    ensures var ab, bc := MergeKids(a, b, false), MergeKids(b, c, false);
            var tail := PairedAll(Without(b, Ids(a)), c, false) + Without(c, Ids(a) + Ids(b));
            && MergeKids(ab, c, false) == PairedAll(PairedAll(a, b, false), c, false) + tail
            && MergeKids(a, bc, false) == PairedAll(a, bc, false) + tail
            && |ab| == |a| + |Without(b, Ids(a))|
  {
    hide MergeKids, Paired, Without, Ids, DistinctIds;
    var ab, bc := MergeKids(a, b, false), MergeKids(b, c, false);
    var p, w := PairedAll(a, b, false), Without(b, Ids(a));
    MergeKidsDistinct(a, b, false);
    MergeKidsDistinct(b, c, false);
    MergeMeaning(a, b, false);
    MergeMeaning(b, c, false);
    MergeMeaning(ab, c, false);
    MergeMeaning(a, bc, false);
    IdsOfMerge(a, b, false);
    PairedConcat(p, w, c);
    WithoutConcat(PairedAll(b, c, false), Without(c, Ids(b)), Ids(a));
    PairedWithout(b, c, Ids(a));
    WithoutTwice(c, Ids(b), Ids(a));
    assert Ids(b) + Ids(a) == Ids(a) + Ids(b);
    Reassociated(PairedAll(p, c, false), PairedAll(w, c, false), Without(c, Ids(a) + Ids(b)));
  }

  /** Merging is associative for lists exactly when it is child by child. */
  lemma KidsAssoc(a: seq<Node>, b: seq<Node>, c: seq<Node>)
    requires DistinctIds(a) && DistinctIds(b) && DistinctIds(c)
    ensures MergeKids(MergeKids(a, b, false), c, false) == MergeKids(a, MergeKids(b, c, false), false)
            <==> forall i :: 0 <= i < |a| ==> ChildAssoc(a[i], b, c)
  {
    hide MergeKids, Paired, Without, Ids, DistinctIds;
    ThreeLists(a, b, c);
    var x, y := PairedAll(PairedAll(a, b, false), c, false), PairedAll(a, MergeKids(b, c, false), false);
    var tail := PairedAll(Without(b, Ids(a)), c, false) + Without(c, Ids(a) + Ids(b));
    SameTail(x, y, tail);
    assert x == y <==> forall i :: 0 <= i < |a| ==> x[i] == y[i];
  }

  lemma SameTail(x: seq<Node>, y: seq<Node>, z: seq<Node>)
    requires |x| == |y|
    ensures x + z == y + z <==> x == y
  {
    if x + z == y + z {
      assert (x + z)[..|x|] == x && (y + z)[..|y|] == y;
    }
  }

  lemma Reassociated(x: seq<Node>, y: seq<Node>, z: seq<Node>)
    ensures x + y + z == x + (y + z)
  {
  }

  /** The number of nodes of a tree. */
  function Count(v: Value): (n: nat)
    ensures n > 0
    decreases v
  {
    if v.Compound? then 1 + CountKids(v.kids) else 1
  }

  function CountKids(kids: seq<Node>): (n: nat)
    ensures n >= |kids|
    decreases kids
  {
    if kids == [] then 0 else Count(kids[0].value) + CountKids(kids[1..])
  }

  lemma {:induction false} CountChild(kids: seq<Node>, i: nat)
    requires i < |kids|
    ensures Count(kids[i].value) <= CountKids(kids)
  {
    if i > 0 {
      CountChild(kids[1..], i - 1);
    }
  }

  lemma MergeOfArrays(d: Value, s: Value)
    requires d.Compound? && s.Compound? && IsArray(d.kids) && IsArray(s.kids)
    ensures Merge(d, s, false) == Compound(d.kids + Renumber(s.kids, |d.kids|), d.join)
  {
  }

  lemma MergeOfOthers(d: Value, s: Value)
    requires d.Compound? && s.Compound? && !(IsArray(d.kids) && IsArray(s.kids))
    ensures Merge(d, s, false) == Compound(MergeKids(d.kids, s.kids, false), d.join)
  {
  }

  lemma PairIsMerge(d: Value, s: Value)
    ensures MergePair(d, s, false) == Merge(d, s, false)
  {
  }

  lemma ArrayKidsAssoc(a: seq<Node>, b: seq<Node>, c: seq<Node>)
    ensures a + Renumber(b, |a|) + Renumber(c, |a| + |b|) == a + Renumber(b + Renumber(c, |b|), |a|)
  {
    hide Renumber;
    RenumberConcat(b, Renumber(c, |b|), |a|);
    RenumberTwice(c, |b|, |a| + |b|);
    Reassociated(a, Renumber(b, |a|), Renumber(c, |a| + |b|));
  }

  lemma ArrayAssoc(a: Value, b: Value, c: Value)
    requires a.Compound? && b.Compound? && c.Compound?
    requires IsArray(a.kids) && IsArray(b.kids) && IsArray(c.kids)
    requires |a.kids| + |b.kids| + |c.kids| <= LLONG_MAX
    ensures Merge(Merge(a, b, false), c, false) == Merge(a, Merge(b, c, false), false)
  {
    hide IsArray, Renumber, Merge;
    var ab, bc := a.kids + Renumber(b.kids, |a.kids|), b.kids + Renumber(c.kids, |b.kids|);
    ArrayConcat(a.kids, b.kids);
    ArrayConcat(b.kids, c.kids);
    MergeOfArrays(a, b);
    MergeOfArrays(b, c);
    MergeOfArrays(Compound(ab, a.join), c);
    MergeOfArrays(a, Compound(bc, b.join));
    ArrayKidsAssoc(a.kids, b.kids, c.kids);
  }

  lemma MergeOfWellFormed(b: Value, c: Value)
    requires b.Compound? && c.Compound? && WellFormed(b) && WellFormed(c)
    requires IsArray(b.kids) && IsArray(c.kids) ==> |b.kids| + |c.kids| <= LLONG_MAX
    ensures Merge(b, c, false).Compound? && DistinctIds(Merge(b, c, false).kids)
  {
    if IsArray(b.kids) && IsArray(c.kids) {
      ArrayConcat(b.kids, c.kids);
      ArrayDistinct(b.kids + Renumber(c.kids, |b.kids|));
    } else {
      MergeKidsDistinct(b.kids, c.kids, false);
    }
  }

  lemma ArrayDistinct(kids: seq<Node>)
    requires IsArray(kids)
    ensures DistinctIds(kids)
  {
    forall i, j | 0 <= i < j < |kids|
      ensures kids[i].id != kids[j].id
    {
      assert IsArrayItem(kids[i].id, i) && IsArrayItem(kids[j].id, j);
    }
  }
}
