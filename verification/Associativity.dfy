/** When snd_config_merge is associative (conf.c:2253-2344). */
module Associativity {
  import opened Numbers
  import opened Tree
  import P = Parser
  import opened Loading
  import opened Merging

  predicate Assoc(a: Value, b: Value, c: Value) {
    Merge(Merge(a, b, false), c, false) == Merge(a, Merge(b, c, false), false)
  }

  // ----- a leaf between two compounds

  /** The children of a come first in c, under the same ids, and so down to the leaves: merging c into a gives c. */
  predicate Absorbs(a: Value, c: Value)
    requires a.Compound? && c.Compound?
    decreases c
  {
    && a.join == c.join && !(IsArray(a.kids) && IsArray(c.kids)) && |a.kids| <= |c.kids|
    && forall i :: 0 <= i < |a.kids| ==>
         && a.kids[i].id == c.kids[i].id
         && (a.kids[i].value.Compound? && c.kids[i].value.Compound? ==> Absorbs(a.kids[i].value, c.kids[i].value))
  }

  lemma {:induction false} WithoutPrefix(x: seq<Node>, y: seq<Node>, ids: set<string>)
    requires (forall k | k in x :: k.id in ids) && (forall k | k in y :: k.id !in ids)
    ensures Without(x + y, ids) == y
  {
    WithoutConcat(x, y, ids);
    WithoutAll(x, ids);
    WithoutAbsent(y, ids);
  }

  /** What merging gives when the ids of a are the first ids of c. */
  lemma PrefixMerge(a: seq<Node>, c: seq<Node>)
    requires DistinctIds(a) && DistinctIds(c) && |a| <= |c| && forall i :: 0 <= i < |a| ==> a[i].id == c[i].id
    ensures MergeKids(a, c, false) == PairedAll(a, c, false) + c[|a|..]
    ensures forall i :: 0 <= i < |a| ==> PairedAll(a, c, false)[i] == Node(c[i].id, Merge(a[i].value, c[i].value, false))
  {
    hide Merge, MergePair, Without, MergeKids;
    MergeMeaning(a, c, false);
    PrefixGone(a, c);
    forall i | 0 <= i < |a|
      ensures PairedAll(a, c, false)[i] == Node(c[i].id, Merge(a[i].value, c[i].value, false))
    {
      FindUnique(c, i);
      PairIsMerge(a[i].value, c[i].value);
    }
  }

  lemma PrefixGone(a: seq<Node>, c: seq<Node>)
    requires DistinctIds(c) && |a| <= |c| && forall i :: 0 <= i < |a| ==> a[i].id == c[i].id
    ensures Without(c, P.Ids(a)) == c[|a|..]
  {
    hide Without;
    assert c == c[..|a|] + c[|a|..];
    forall k | k in c[..|a|]
      ensures k.id in P.Ids(a)
    {
      var i :| 0 <= i < |a| && c[i] == k;
      assert a[i] in a;
    }
    forall k | k in c[|a|..]
      ensures k.id !in P.Ids(a)
    {
      var i :| |a| <= i < |c| && c[i] == k;
      FoundIffId(a, k.id);
    }
    WithoutPrefix(c[..|a|], c[|a|..], P.Ids(a));
  }

  lemma {:induction false} AbsorbsIff(a: Value, c: Value)
    requires a.Compound? && c.Compound? && WellFormed(a) && WellFormed(c)
    ensures Merge(a, c, false) == c <==> Absorbs(a, c)
    decreases c, 1
  {
    if IsArray(a.kids) && IsArray(c.kids) {
      MergeOfArrays(a, c);
    } else {
      MergeOfOthers(a, c);
      hide IsArray, Merge, MergeKids;
      if FirstIds(a.kids, c.kids) {
        PrefixMerge(a.kids, c.kids);
        AbsorbsEach(a, c);
      } else {
        NotFirstIds(a.kids, c.kids);
      }
    }
  }

  predicate FirstIds(a: seq<Node>, c: seq<Node>) {
    |a| <= |c| && forall i :: 0 <= i < |a| ==> a[i].id == c[i].id
  }

  lemma NotFirstIds(a: seq<Node>, c: seq<Node>)
    requires DistinctIds(a) && DistinctIds(c) && !FirstIds(a, c)
    ensures MergeKids(a, c, false) != c
  {
    hide MergeKids, Without;
    MergeMeaning(a, c, false);
    var m := PairedAll(a, c, false) + Without(c, P.Ids(a));
    assert forall i :: 0 <= i < |a| ==> m[i].id == a[i].id;
  }

  lemma AbsorbsEach(a: Value, c: Value)
    requires a.Compound? && c.Compound? && WellFormed(a) && WellFormed(c) && FirstIds(a.kids, c.kids)
    requires !(IsArray(a.kids) && IsArray(c.kids))
    requires MergeKids(a.kids, c.kids, false) == PairedAll(a.kids, c.kids, false) + c.kids[|a.kids|..]
    requires forall i :: 0 <= i < |a.kids| ==>
               PairedAll(a.kids, c.kids, false)[i] == Node(c.kids[i].id, Merge(a.kids[i].value, c.kids[i].value, false))
    ensures Compound(MergeKids(a.kids, c.kids, false), a.join) == c <==> Absorbs(a, c)
    decreases c, 0
  {
    hide MergeKids, IsArray, Paired;
    var p, n := PairedAll(a.kids, c.kids, false), |a.kids|;
    assert c.kids == c.kids[..n] + c.kids[n..];
    SameTail(p, c.kids[..n], c.kids[n..]);
    forall i | 0 <= i < n
      ensures p[i] == c.kids[i] <==>
                (a.kids[i].value.Compound? && c.kids[i].value.Compound? ==> Absorbs(a.kids[i].value, c.kids[i].value))
    {
      assert a.kids[i] in a.kids && c.kids[i] in c.kids;
      AbsorbsOne(a.kids[i].value, c.kids[i].value);
    }
    assert p == c.kids[..n] <==> forall i :: 0 <= i < n ==> p[i] == c.kids[i];
  }

  lemma AbsorbsOne(x: Value, z: Value)
    requires WellFormed(x) && WellFormed(z)
    ensures Merge(x, z, false) == z <==> (x.Compound? && z.Compound? ==> Absorbs(x, z))
    decreases z, 2
  {
    if x.Compound? && z.Compound? {
      AbsorbsIff(x, z);
    }
  }

  // ----- the test for two arrays

  /** The ids of three lists are such that no two of the four merges of either bracketing join arrays. */
  predicate NoArrays(a: seq<Node>, b: seq<Node>, c: seq<Node>) {
    && !(IsArray(a) && IsArray(b)) && !(IsArray(b) && IsArray(c))
    && !(IsArray(a) && IsArray(c) && IsArray(a + Without(b, P.Ids(a))))
  }

  /** At every path that all three have, the test for two arrays always succeeds or always fails. */
  predicate Steady(a: Value, b: Value, c: Value)
    decreases c
  {
    a.Compound? && b.Compound? && c.Compound? && a.kids != [] && b.kids != [] && c.kids != [] ==>
      || (IsArray(a.kids) && IsArray(b.kids) && IsArray(c.kids))
      || (NoArrays(a.kids, b.kids, c.kids) &&
          forall x, y, z | x in a.kids && y in b.kids && z in c.kids && x.id == y.id == z.id ::
            Steady(x.value, y.value, z.value))
  }

  /** At every path that all three have, a leaf does not stand between two compounds unless the first is absorbed. */
  predicate LeafFits(a: Value, b: Value, c: Value)
    decreases c, 1
  {
    if !a.Compound? || !c.Compound? then true
    else if !b.Compound? then Absorbs(a, c)
    else if a.kids == [] || b.kids == [] || c.kids == [] || (IsArray(a.kids) && IsArray(b.kids) && IsArray(c.kids)) then true
    else KidsFit(a.kids, b.kids, c.kids)
  }

  predicate KidsFit(a: seq<Node>, b: seq<Node>, c: seq<Node>)
    decreases c, 0
  {
    forall x, y, z | x in a && y in b && z in c && x.id == y.id == z.id :: LeafFits(x.value, y.value, z.value)
  }

  lemma SameIdsSameArray(a: seq<Node>, b: seq<Node>)
    requires |a| == |b| && forall i :: 0 <= i < |a| ==> a[i].id == b[i].id
    ensures IsArray(a) == IsArray(b)
  {
  }

  lemma MergedIsArray(a: seq<Node>, b: seq<Node>)
    requires DistinctIds(a) && DistinctIds(b) && a != []
    ensures IsArray(MergeKids(a, b, false)) == IsArray(a + Without(b, P.Ids(a)))
    ensures IsArray(MergeKids(a, b, false)) ==> IsArray(a)
  {
    hide MergeKids, IsArrayItem, Without;
    MergeMeaning(a, b, false);
    SameIdsSameArray(MergeKids(a, b, false), a + Without(b, P.Ids(a)));
    if IsArray(MergeKids(a, b, false)) {
      assert forall i :: 0 <= i < |a| ==> (a + Without(b, P.Ids(a)))[i] == a[i];
    }
  }

  /** Then both bracketings merge lists of children only. */
  lemma NoArraysMerge(a: Value, b: Value, c: Value)
    requires a.Compound? && b.Compound? && c.Compound? && a.kids != [] && b.kids != []
    requires DistinctIds(a.kids) && DistinctIds(b.kids) && NoArrays(a.kids, b.kids, c.kids) && DistinctIds(c.kids)
    ensures Merge(Merge(a, b, false), c, false)
         == Compound(MergeKids(MergeKids(a.kids, b.kids, false), c.kids, false), a.join)
    ensures Merge(a, Merge(b, c, false), false)
         == Compound(MergeKids(a.kids, MergeKids(b.kids, c.kids, false), false), a.join)
  {
    hide IsArray, MergeKids, Merge, Without, DistinctIds;
    MergedIsArray(a.kids, b.kids);
    MergedIsArray(b.kids, c.kids);
    MergeOfOthers(a, b);
    MergeOfOthers(b, c);
    MergeOfOthers(Merge(a, b, false), c);
    MergeOfOthers(a, Merge(b, c, false));
  }

  lemma ListsAssoc(a: Value, b: Value, c: Value)
    requires a.Compound? && b.Compound? && c.Compound? && a.kids != [] && b.kids != []
    requires DistinctIds(a.kids) && DistinctIds(b.kids) && NoArrays(a.kids, b.kids, c.kids) && DistinctIds(c.kids)
    ensures Assoc(a, b, c) <==> forall i :: 0 <= i < |a.kids| ==> ChildAssoc(a.kids[i], b.kids, c.kids)
  {
    hide NoArrays, MergeKids, Merge, DistinctIds, ChildAssoc;
    NoArraysMerge(a, b, c);
    KidsAssoc(a.kids, b.kids, c.kids);
  }

  /** The partners of one child are merged in either order exactly if the values are. */
  lemma PartnersAssoc(n: Node, b: seq<Node>, c: seq<Node>)
    requires DistinctIds(b) && DistinctIds(c)
    ensures ChildAssoc(n, b, c) <==>
              var fb, fc := Find(b, n.id), Find(c, n.id);
              fb.Some? && fc.Some? ==> Assoc(n.value, b[fb.value].value, c[fc.value].value)
  {
    hide MergeKids, Merge, MergePair, DistinctIds;
    FindMerged(b, c, n.id);
    var fb, fc := Find(b, n.id), Find(c, n.id);
    if fb.Some? {
      PairIsMerge(n.value, b[fb.value].value);
      if fc.Some? {
        var x, y, z := n.value, b[fb.value].value, c[fc.value].value;
        PairIsMerge(y, z);
        PairIsMerge(Merge(x, y, false), z);
        PairIsMerge(x, Merge(y, z, false));
      }
    }
  }

  lemma EmptyLeft(a: Value, b: Value, c: Value)
    requires a.Compound? && b.Compound? && c.Compound? && a.kids == [] && WellFormed(b) && WellFormed(c)
    requires Count(b) + Count(c) <= LLONG_MAX
    ensures Assoc(a, b, c)
  {
    EmptyIsUnit(b, a.join, false);
    MergeOfWellFormed(b, c);
    EmptyIsUnit(Merge(b, c, false), a.join, false);
  }

  lemma EmptyRight(a: Value, b: Value, c: Value)
    requires a.Compound? && b.Compound? && c.Compound? && (b.kids == [] || c.kids == [])
    requires WellFormed(a) && WellFormed(b) && WellFormed(c) && Count(a) + Count(b) <= LLONG_MAX
    ensures Assoc(a, b, c)
  {
    if b.kids == [] {
      EmptyIsUnit(a, b.join, false);
      EmptyIsUnit(c, b.join, false);
      SourceJoinIgnored(a, c.kids, b.join, c.join);
    } else {
      MergeOfWellFormed(a, b);
      EmptyIsUnit(Merge(a, b, false), c.join, false);
      EmptyIsUnit(b, c.join, false);
    }
  }

  lemma SourceJoinIgnored(a: Value, kids: seq<Node>, i: bool, j: bool)
    requires a.Compound?
    ensures Merge(a, Compound(kids, i), false) == Merge(a, Compound(kids, j), false)
  {
  }

  lemma CountsKids(a: Value)
    requires a.Compound?
    ensures |a.kids| < Count(a)
  {
  }

  /** Where the test for two arrays is steady, merging is associative exactly when no leaf is in the way. */
  lemma {:induction false} MergeAssociativeIff(a: Value, b: Value, c: Value)
    requires WellFormed(a) && WellFormed(b) && WellFormed(c) && Steady(a, b, c)
    requires Count(a) + Count(b) + Count(c) <= LLONG_MAX
    ensures Assoc(a, b, c) <==> LeafFits(a, b, c)
    decreases c, 1
  {
    if !a.Compound? || !c.Compound? {
      LeafOutside(a, b, c);
    } else if !b.Compound? {
      AbsorbsIff(a, c);
    } else {
      hide WellFormed, Merge, IsArray, MergeKids;
      CountsKids(a);
      CountsKids(b);
      CountsKids(c);
      if a.kids == [] {
        EmptyLeft(a, b, c);
      } else if b.kids == [] || c.kids == [] {
        EmptyRight(a, b, c);
      } else if IsArray(a.kids) && IsArray(b.kids) && IsArray(c.kids) {
        ArrayAssoc(a, b, c);
      } else {
        OthersAssociativeIff(a, b, c);
      }
    }
  }

  lemma LeafOutside(a: Value, b: Value, c: Value)
    requires !a.Compound? || !c.Compound?
    ensures Assoc(a, b, c)
  {
    hide MergeKids, IsArray;
  }

  lemma DistinctKids(a: Value)
    requires WellFormed(a) && a.Compound?
    ensures DistinctIds(a.kids) && forall k | k in a.kids :: WellFormed(k.value)
  {
  }

  lemma OthersAssociativeIff(a: Value, b: Value, c: Value)
    requires a.Compound? && b.Compound? && c.Compound? && a.kids != [] && b.kids != [] && c.kids != []
    requires WellFormed(a) && WellFormed(b) && WellFormed(c) && Steady(a, b, c)
    requires !(IsArray(a.kids) && IsArray(b.kids) && IsArray(c.kids))
    requires Count(a) + Count(b) + Count(c) <= LLONG_MAX
    ensures Assoc(a, b, c) <==> LeafFits(a, b, c)
    decreases c, 0
  {
    hide WellFormed, IsArray, Assoc, KidsFit, NoArrays;
    assert NoArrays(a.kids, b.kids, c.kids);
    assert LeafFits(a, b, c) == KidsFit(a.kids, b.kids, c.kids);
    hide Steady, LeafFits, ChildFits, ChildAssoc;
    DistinctKids(a);
    DistinctKids(b);
    DistinctKids(c);
    ListsAssoc(a, b, c);
    forall i | 0 <= i < |a.kids|
      ensures ChildAssoc(a.kids[i], b.kids, c.kids) <==> ChildFits(a.kids[i], b.kids, c.kids)
    {
      OneChildIff(a, b, c, i);
    }
    FitsByChild(a.kids, b.kids, c.kids);
  }

  ghost predicate ChildFits(n: Node, b: seq<Node>, c: seq<Node>) {
    var fb, fc := Find(b, n.id), Find(c, n.id);
    fb.Some? && fc.Some? ==> LeafFits(n.value, b[fb.value].value, c[fc.value].value)
  }

  lemma OneChildIff(a: Value, b: Value, c: Value, i: nat)
    requires a.Compound? && b.Compound? && c.Compound? && b.kids != [] && c.kids != [] && i < |a.kids|
    requires WellFormed(a) && WellFormed(b) && WellFormed(c) && Steady(a, b, c)
    requires !(IsArray(a.kids) && IsArray(b.kids) && IsArray(c.kids))
    requires Count(a) + Count(b) + Count(c) <= LLONG_MAX
    ensures ChildAssoc(a.kids[i], b.kids, c.kids) <==> ChildFits(a.kids[i], b.kids, c.kids)
    decreases c, 0, i
  {
    hide IsArray, Assoc, ChildAssoc, LeafFits;
    var n := a.kids[i];
    var fb, fc := Find(b.kids, n.id), Find(c.kids, n.id);
    PartnersAssoc(n, b.kids, c.kids);
    if fb.Some? && fc.Some? {
      CountChild(a.kids, i);
      CountChild(b.kids, fb.value);
      CountChild(c.kids, fc.value);
      assert n in a.kids && b.kids[fb.value] in b.kids && c.kids[fc.value] in c.kids;
      MergeAssociativeIff(n.value, b.kids[fb.value].value, c.kids[fc.value].value);
    }
  }

  /** Triples of children with one id are those found by searching. */
  lemma FitsByChild(a: seq<Node>, b: seq<Node>, c: seq<Node>)
    requires DistinctIds(b) && DistinctIds(c)
    ensures KidsFit(a, b, c) <==> forall i :: 0 <= i < |a| ==> ChildFits(a[i], b, c)
  {
    hide LeafFits;
    if KidsFit(a, b, c) {
      forall i | 0 <= i < |a|
        ensures ChildFits(a[i], b, c)
      {
        assert a[i] in a;
        FitsChild(a, b, c, a[i]);
      }
    }
    hide ChildFits;
    if forall i :: 0 <= i < |a| ==> ChildFits(a[i], b, c) {
      forall x, y, z | x in a && y in b && z in c && x.id == y.id == z.id
        ensures LeafFits(x.value, y.value, z.value)
      {
        var i :| 0 <= i < |a| && a[i] == x;
        assert ChildFits(a[i], b, c);
        FitsTriple(x, b, c, y, z);
      }
    }
  }

  lemma FitsChild(a: seq<Node>, b: seq<Node>, c: seq<Node>, n: Node)
    requires KidsFit(a, b, c) && n in a
    ensures ChildFits(n, b, c)
  {
    hide LeafFits;
    var fb, fc := Find(b, n.id), Find(c, n.id);
    if fb.Some? && fc.Some? {
      assert b[fb.value] in b && c[fc.value] in c;
    }
  }

  lemma FitsTriple(x: Node, b: seq<Node>, c: seq<Node>, y: Node, z: Node)
    requires DistinctIds(b) && DistinctIds(c) && ChildFits(x, b, c) && y in b && z in c && x.id == y.id == z.id
    ensures LeafFits(x.value, y.value, z.value)
  {
    hide LeafFits;
    var j :| 0 <= j < |b| && b[j] == y;
    var k :| 0 <= k < |c| && c[k] == z;
    FindUnique(b, j);
    FindUnique(c, k);
  }

  // ----- where the test changes

  lemma {:induction false} WithoutShorter(kids: seq<Node>, ids: set<string>)
    ensures |Without(kids, ids)| <= |kids|
    ensures |Without(kids, ids)| == |kids| ==> Without(kids, ids) == kids
  {
    if kids != [] {
      WithoutShorter(kids[1..], ids);
      assert kids == [kids[0]] + kids[1..];
    }
  }

  /** An array whose partner makes it one only by merging is never associative with a third array. */
  lemma ArrayAppears(a: Value, b: Value, c: Value)
    requires a.Compound? && b.Compound? && c.Compound? && a.kids != [] && b.kids != []
    requires DistinctIds(a.kids) && DistinctIds(b.kids) && DistinctIds(c.kids)
    requires IsArray(a.kids) && !IsArray(b.kids) && IsArray(c.kids) && IsArray(a.kids + Without(b.kids, P.Ids(a.kids)))
    ensures !Assoc(a, b, c)
  {
    hide IsArray, MergeKids, Merge, DistinctIds, Renumber, IsArrayItem, PairedAll;
    var ab, ids := MergeKids(a.kids, b.kids, false), P.Ids(a.kids) + P.Ids(b.kids);
    MergedIsArray(a.kids, b.kids);
    MergedIsArray(b.kids, c.kids);
    MergeOfOthers(a, b);
    MergeOfOthers(b, c);
    MergeOfArrays(Compound(ab, a.join), c);
    MergeOfOthers(a, Merge(b, c, false));
    ThreeLists(a.kids, b.kids, c.kids);
    WithoutShorter(c.kids, ids);
    var first := PairedAll(a.kids, MergeKids(b.kids, c.kids, false), false) + PairedAll(Without(b.kids, P.Ids(a.kids)), c.kids, false);
    Reassociated(PairedAll(a.kids, MergeKids(b.kids, c.kids, false), false),
                 PairedAll(Without(b.kids, P.Ids(a.kids)), c.kids, false), Without(c.kids, ids));
    hide Without, P.Ids;
    NumbersMove(ab, first, c.kids, Without(c.kids, ids));
  }

  /** An array behind n others does not begin with the item that it gets when it is numbered on. */
  lemma NumbersMove(ab: seq<Node>, first: seq<Node>, c: seq<Node>, rest: seq<Node>)
    requires ab != [] && |ab| == |first| && IsArray(c) && (|rest| == |c| ==> rest == c)
    ensures ab + Renumber(c, |ab|) != first + rest
  {
    if ab + Renumber(c, |ab|) == first + rest {
      assert |rest| == |c|;
      assert (ab + Renumber(c, |ab|))[|ab|] == Renumber(c, |ab|)[0] && (first + rest)[|ab|] == c[0];
      DecimalReads(|ab|, 0);
    }
  }

  /** The same ids, with one value under all of them. */
  function Filled(kids: seq<Node>, v: Value): (r: seq<Node>)
    ensures |r| == |kids| && forall i :: 0 <= i < |r| ==> r[i] == Node(kids[i].id, v)
  {
    seq(|kids|, i requires 0 <= i < |kids| => Node(kids[i].id, v))
  }

  lemma FilledFacts(kids: seq<Node>, v: Value, id: string)
    requires DistinctIds(kids)
    ensures DistinctIds(Filled(kids, v)) && IsArray(Filled(kids, v)) == IsArray(kids)
    ensures Find(Filled(kids, v), id) == Find(kids, id)
  {
    hide IsArray;
    var f := Filled(kids, v);
    SameIdsSameArray(f, kids);
    if Find(kids, id).Some? {
      FindUnique(f, Find(kids, id).value);
    }
  }

  /** The value that stands under an id. */
  function At(kids: seq<Node>, id: string): Option<Value> {
    match Find(kids, id)
    case None => None
    case Some(i) => Some(kids[i].value)
  }

  lemma MergedAt(b: seq<Node>, c: seq<Node>, id: string)
    requires DistinctIds(b) && DistinctIds(c)
    ensures At(MergeKids(b, c, false), id) ==
            if At(b, id).None? then At(c, id)
            else if At(c, id).None? then At(b, id)
            else Some(MergePair(At(b, id).value, At(c, id).value, false))
  {
    hide MergeKids, MergePair, DistinctIds;
    FindMerged(b, c, id);
  }

  lemma NumberedOn(b: seq<Node>, c: seq<Node>)
    requires IsArray(b)
    ensures DistinctIds(b + Renumber(c, |b|))
    ensures forall id | IsArrayItem(id, 0) && Find(b, id).None? :: Find(b + Renumber(c, |b|), id).None?
    ensures forall id | IsArrayItem(id, 0) && Find(b, id).Some? :: At(b + Renumber(c, |b|), id) == At(b, id)
  {
    hide IsArrayItem;
    var bc := b + Renumber(c, |b|);
    forall i | |b| <= i < |bc|
      ensures bc[i].id == Decimal(i)
    {
      RenumberAt(c, |b|, i - |b|);
    }
    forall i, j | 0 <= i < j < |bc|
      ensures bc[i].id != bc[j].id
    {
      ItemsDiffer(bc, |b|, i, j);
    }
    forall id | IsArrayItem(id, 0)
      ensures Find(b, id).None? ==> Find(bc, id).None?
      ensures Find(b, id).Some? ==> At(bc, id) == At(b, id)
    {
      if Find(b, id).Some? {
        assert bc[Find(b, id).value] == b[Find(b, id).value];
        FindUnique(bc, Find(b, id).value);
      } else {
        forall i | 0 <= i < |bc|
          ensures bc[i].id != id
        {
          if i >= |b| {
            NotZero(id, i);
          }
        }
      }
    }
  }

  lemma NotZero(id: string, i: nat)
    requires IsArrayItem(id, 0) && i > 0
    ensures id != Decimal(i)
  {
    if id == Decimal(i) {
      DecimalReads(i, 0);
    }
  }

  lemma ItemsDiffer(ks: seq<Node>, n: nat, i: nat, j: nat)
    requires i < j < |ks| && n <= |ks|
    requires forall m :: 0 <= m < n ==> IsArrayItem(ks[m].id, m)
    requires forall m :: n <= m < |ks| ==> ks[m].id == Decimal(m)
    ensures ks[i].id != ks[j].id
  {
    assert i < n ==> IsArrayItem(ks[i].id, i);
    assert j < n ==> IsArrayItem(ks[j].id, j);
    if j >= n && ks[i].id == ks[j].id {
      if i < n {
        DecimalReads(j, i);
      } else {
        DecimalInjective(i, j);
      }
    }
  }

  /** Behind a first that is none, two arrays joined early or late differ, whatever the ids. */
  lemma LateArrays(a: seq<Node>, b: seq<Node>, c: seq<Node>)
    requires DistinctIds(a) && DistinctIds(b) && DistinctIds(c) && a != [] && !IsArray(a) && IsArray(b) && IsArray(c)
    ensures !Assoc(Compound(Filled(a, Integer(2)), false), Compound(Filled(b, Integer(0)), false),
                   Compound(Filled(c, Integer(1)), false))
  {
    var id := c[0].id;
    assert IsArrayItem(id, 0) && Find(c, id) == Some(0);
    hide IsArray, MergeKids, Merge, DistinctIds, IsArrayItem, Renumber, Filled;
    var a', b', c' := Filled(a, Integer(2)), Filled(b, Integer(0)), Filled(c, Integer(1));
    FilledFacts(a, Integer(2), id);
    FilledFacts(b, Integer(0), id);
    FilledFacts(c, Integer(1), id);
    var x, y, z := Compound(a', false), Compound(b', false), Compound(c', false);
    var ab, bc := MergeKids(a', b', false), b' + Renumber(c', |b'|);
    MergedIsArray(a', b');
    MergeOfOthers(x, y);
    MergeOfOthers(Compound(ab, false), z);
    MergeOfArrays(y, z);
    MergeOfOthers(x, Compound(bc, false));
    MergeKidsDistinct(a', b', false);
    NumberedOn(b', c');
    MergedAt(a', b', id);
    MergedAt(ab, c', id);
    MergedAt(a', bc, id);
    assert At(MergeKids(ab, c', false), id) == Some(Integer(1));
    assert At(MergeKids(a', bc, false), id) != Some(Integer(1));
  }

  /** Where only values of c can be, ids of c are. */
  lemma FromThird(ab: seq<Node>, c: seq<Node>, i: nat)
    requires DistinctIds(ab) && DistinctIds(c) && (forall k | k in ab :: k.value != Integer(1))
    requires (forall k | k in c :: k.value == Integer(1))
    requires i < |MergeKids(ab, c, false)| && MergeKids(ab, c, false)[i].value == Integer(1)
    ensures Find(c, MergeKids(ab, c, false)[i].id).Some?
  {
    hide MergeKids;
    var l := MergeKids(ab, c, false);
    MergeKidsDistinct(ab, c, false);
    FindUnique(l, i);
    MergedAt(ab, c, l[i].id);
    if Find(ab, l[i].id).Some? {
      assert ab[Find(ab, l[i].id).value] in ab;
    }
  }

  lemma ValueOfThird(b: seq<Node>, c: seq<Node>, m: nat)
    requires DistinctIds(b) && DistinctIds(c) && (forall k | k in c :: k.value == Integer(1))
    requires m < |MergeKids(b, c, false)| && Find(c, MergeKids(b, c, false)[m].id).Some?
    ensures MergeKids(b, c, false)[m].value == Integer(1)
  {
    hide MergeKids;
    var bc := MergeKids(b, c, false);
    MergeKidsDistinct(b, c, false);
    FindUnique(bc, m);
    MergedAt(b, c, bc[m].id);
    assert c[Find(c, bc[m].id).value] in c;
  }

  /** Every id of c in the array of b and c would need another one further on. */
  lemma {:induction false} Climb(a: seq<Node>, ab: seq<Node>, b: seq<Node>, c: seq<Node>, m: nat)
    requires DistinctIds(ab) && DistinctIds(b) && DistinctIds(c) && a != []
    requires (forall k | k in ab :: k.value != Integer(1)) && (forall k | k in c :: k.value == Integer(1))
    requires IsArray(MergeKids(b, c, false)) && m < |MergeKids(b, c, false)|
    requires Find(c, MergeKids(b, c, false)[m].id).Some?
    ensures MergeKids(ab, c, false) != a + Renumber(MergeKids(b, c, false), |a|)
    decreases |MergeKids(b, c, false)| - m
  {
    hide MergeKids, DistinctIds, Renumber;
    var l, bc, next := MergeKids(ab, c, false), MergeKids(b, c, false), |a| + m;
    if l == a + Renumber(bc, |a|) {
      ValueOfThird(b, c, m);
      RenumberAt(bc, |a|, m);
      assert l[next] == Renumber(bc, |a|)[m];
      FromThird(ab, c, next);
      FindMerged(b, c, Decimal(next));
      var p := Find(bc, Decimal(next)).value;
      assert IsArrayItem(bc[p].id, p);
      DecimalReads(next, p);
      Climb(a, ab, b, c, next);
    }
  }

  lemma EarlyArraysLeaves(a: seq<Node>, b: seq<Node>, c: seq<Node>)
    requires DistinctIds(a) && DistinctIds(b) && DistinctIds(c) && c != [] && IsArray(a) && IsArray(b) && !IsArray(c)
    requires IsArray(b + Without(c, P.Ids(b)))
    ensures !Assoc(Compound(Filled(a, Integer(2)), false), Compound(Filled(b, Integer(0)), false),
                   Compound(Filled(c, Integer(1)), false))
  {
    var id := c[0].id;
    assert Find(c, id) == Some(0) && a != [] && b != [];
    hide IsArray, MergeKids, Merge, DistinctIds, IsArrayItem, Renumber, Without, P.Ids;
    var a', b', c' := Filled(a, Integer(2)), Filled(b, Integer(0)), Filled(c, Integer(1));
    FilledFacts(a, Integer(2), id);
    FilledFacts(b, Integer(0), id);
    FilledFacts(c, Integer(1), id);
    var x, y, z := Compound(a', false), Compound(b', false), Compound(c', false);
    var ab, bc := a' + Renumber(b', |a'|), MergeKids(b', c', false);
    FilledMerge(b, c, Integer(0), Integer(1));
    NumberedOn(a', b');
    MergeOfArrays(x, y);
    MergeOfOthers(Compound(ab, false), z);
    MergeOfOthers(y, z);
    MergeOfArrays(x, Compound(bc, false));
    FindMerged(b', c', id);
    JoinedValues(a', b');
    assert forall k | k in c' :: k.value == Integer(1);
    Climb(a', ab, b', c', Find(bc, id).value);
  }

  lemma JoinedValues(a: seq<Node>, b: seq<Node>)
    requires (forall k | k in a :: k.value == Integer(2)) && (forall k | k in b :: k.value == Integer(0))
    ensures forall k | k in a + Renumber(b, |a|) :: k.value != Integer(1)
  {
    forall k | k in a + Renumber(b, |a|)
      ensures k.value != Integer(1)
    {
      var i :| 0 <= i < |a + Renumber(b, |a|)| && (a + Renumber(b, |a|))[i] == k;
      if i >= |a| {
        RenumberAt(b, |a|, i - |a|);
        assert b[i - |a|] in b;
      } else {
        assert a[i] in a;
      }
    }
  }

  /** Whether a merge is an array depends on the ids only. */
  lemma FilledMerge(b: seq<Node>, c: seq<Node>, v: Value, w: Value)
    requires DistinctIds(b) && DistinctIds(c) && b != []
    ensures IsArray(MergeKids(Filled(b, v), Filled(c, w), false)) == IsArray(b + Without(c, P.Ids(b)))
  {
    hide IsArrayItem, MergeKids;
    var b', c' := Filled(b, v), Filled(c, w);
    FilledFacts(b, v, []);
    FilledFacts(c, w, []);
    MergedIsArray(b', c');
    SameIdsSet(b, b');
    FilledWithout(c, w, P.Ids(b));
    hide P.Ids, Without, IsArray, DistinctIds;
    ConcatFilled(b, v, Without(c, P.Ids(b)), w);
  }

  lemma ConcatFilled(b: seq<Node>, v: Value, c: seq<Node>, w: Value)
    ensures IsArray(Filled(b, v) + Filled(c, w)) == IsArray(b + c)
  {
    hide IsArray;
    SameIdsSameArray(Filled(b, v) + Filled(c, w), b + c);
  }

  lemma SameIdsSet(a: seq<Node>, b: seq<Node>)
    requires |a| == |b| && forall i :: 0 <= i < |a| ==> a[i].id == b[i].id
    ensures P.Ids(a) == P.Ids(b)
  {
    forall id
      ensures id in P.Ids(a) <==> id in P.Ids(b)
    {
      FoundIffId(a, id);
      FoundIffId(b, id);
    }
  }

  lemma {:induction false} FilledWithout(c: seq<Node>, w: Value, ids: set<string>)
    ensures Without(Filled(c, w), ids) == Filled(Without(c, ids), w)
  {
    if c != [] {
      FilledWithout(c[1..], w, ids);
      assert Filled(c, w)[1..] == Filled(c[1..], w);
    }
  }

  const NONE := Compound([], false)
  const SOME := Compound([Node("y", Integer(0))], false)

  lemma NoneAndSome()
    ensures MergePair(NONE, NONE, false) == NONE && MergePair(NONE, SOME, false) == SOME
    ensures MergePair(SOME, NONE, false) == SOME
  {
    EmptyIsUnit(NONE, false, false);
    EmptyIsUnit(SOME, false, false);
  }

  lemma EarlyArraysCompounds(a: seq<Node>, b: seq<Node>, c: seq<Node>)
    requires DistinctIds(a) && DistinctIds(b) && DistinctIds(c) && IsArray(a) && IsArray(b) && !IsArray(c)
    requires !IsArray(b + Without(c, P.Ids(b)))
    ensures !Assoc(Compound(Filled(a, NONE), false), Compound(Filled(b, SOME), false), Compound(Filled(c, NONE), false))
  {
    var shared := Find(b, a[0].id).Some?;
    var id := if shared then a[0].id else b[0].id;
    FirstItems(a, b);
    assert a != [] && b != [];
    hide IsArray, MergeKids, Merge, DistinctIds, IsArrayItem, Renumber, Without, P.Ids, MergePair, Filled;
    var a', b', c' := Filled(a, NONE), Filled(b, SOME), Filled(c, NONE);
    FilledFacts(a, NONE, id);
    FilledFacts(b, SOME, id);
    FilledFacts(c, NONE, id);
    var x, y, z := Compound(a', false), Compound(b', false), Compound(c', false);
    var ab, bc := a' + Renumber(b', |a'|), MergeKids(b', c', false);
    FilledMerge(b, c, SOME, NONE);
    NumberedOn(a', b');
    MergeOfArrays(x, y);
    MergeOfOthers(Compound(ab, false), z);
    MergeOfOthers(y, z);
    MergeOfOthers(x, Compound(bc, false));
    CompoundsDiffer(a', b', c', ab, id, shared);
  }

  /** The value under one id tells the two bracketings apart. */
  lemma CompoundsDiffer(a: seq<Node>, b: seq<Node>, c: seq<Node>, ab: seq<Node>, id: string, shared: bool)
    requires DistinctIds(a) && DistinctIds(b) && DistinctIds(c) && DistinctIds(ab)
    requires At(b, id) == Some(SOME) && (At(c, id) == Some(NONE) || At(c, id) == None)
    requires if shared then At(a, id) == Some(NONE) && At(ab, id) == Some(NONE) else At(a, id) == None && At(ab, id) == None
    ensures MergeKids(ab, c, false) != MergeKids(a, MergeKids(b, c, false), false)
  {
    hide MergeKids, MergePair, DistinctIds;
    var bc := MergeKids(b, c, false);
    MergeKidsDistinct(b, c, false);
    MergedAt(ab, c, id);
    MergedAt(b, c, id);
    MergedAt(a, bc, id);
    NoneAndSome();
    assert At(MergeKids(a, bc, false), id) == Some(SOME);
    assert At(MergeKids(ab, c, false), id) != Some(SOME);
  }

  lemma FirstItems(a: seq<Node>, b: seq<Node>)
    requires IsArray(a) && IsArray(b)
    ensures Find(b, a[0].id).None? ==> Find(a, b[0].id).None?
    ensures IsArrayItem(a[0].id, 0) && IsArrayItem(b[0].id, 0)
    ensures Find(a, a[0].id) == Some(0) && Find(b, b[0].id) == Some(0)
  {
    if Find(a, b[0].id).Some? {
      var i := Find(a, b[0].id).value;
      assert IsArrayItem(a[i].id, i) && IsArrayItem(b[0].id, 0);
    }
  }

  predicate SameIds(a: seq<Node>, b: seq<Node>) {
    |a| == |b| && forall i :: 0 <= i < |a| ==> a[i].id == b[i].id
  }

  /** For all lists of ids on which the test changes there are values on which the bracketing matters. */
  lemma UnsteadyFails(a: seq<Node>, b: seq<Node>, c: seq<Node>) returns (x: seq<Node>, y: seq<Node>, z: seq<Node>)
    requires DistinctIds(a) && DistinctIds(b) && DistinctIds(c) && a != [] && b != [] && c != []
    requires !(IsArray(a) && IsArray(b) && IsArray(c)) && !NoArrays(a, b, c)
    ensures SameIds(a, x) && SameIds(b, y) && SameIds(c, z)
    ensures !Assoc(Compound(x, false), Compound(y, false), Compound(z, false))
  {
    hide IsArray, Assoc;
    x, y, z := Filled(a, Integer(2)), Filled(b, Integer(0)), Filled(c, Integer(1));
    if !IsArray(a) {
      LateArrays(a, b, c);
    } else if !IsArray(b) {
      x, y, z := a, b, c;
      ArrayAppears(Compound(a, false), Compound(b, false), Compound(c, false));
    } else if IsArray(b + Without(c, P.Ids(b))) {
      EarlyArraysLeaves(a, b, c);
    } else {
      x, y, z := Filled(a, NONE), Filled(b, SOME), Filled(c, NONE);
      EarlyArraysCompounds(a, b, c);
    }
  }

  // ----- trees that fit in pairs

  /**
   At every path both have, both have a leaf, or both an array, or both some other compound; empty compounds fit all.
   */
  predicate Compat(a: Value, b: Value) {
    a.Compound? == b.Compound? &&
    (a.Compound? && a.kids != [] && b.kids != [] ==>
       && IsArray(a.kids) == IsArray(b.kids)
       && (!IsArray(a.kids) ==>
             forall k, l | k in a.kids && l in b.kids && k.id == l.id :: Compat(k.value, l.value)))
  }

  lemma {:induction false} CompatFits(a: Value, b: Value, c: Value)
    requires Compat(a, b) && Compat(b, c) && Compat(a, c)
    ensures Steady(a, b, c) && LeafFits(a, b, c)
    decreases c
  {
    hide IsArrayItem;
    if a.Compound? && a.kids != [] && b.kids != [] && c.kids != [] && !IsArray(a.kids) {
      forall x, y, z | x in a.kids && y in b.kids && z in c.kids && x.id == y.id == z.id
        ensures Steady(x.value, y.value, z.value) && LeafFits(x.value, y.value, z.value)
      {
        CompatFits(x.value, y.value, z.value);
      }
    }
  }

  /** So merging is associative on trees that pairwise agree at every shared path. */
  lemma CompatAssociative(a: Value, b: Value, c: Value)
    requires WellFormed(a) && WellFormed(b) && WellFormed(c)
    requires Compat(a, b) && Compat(b, c) && Compat(a, c)
    requires Count(a) + Count(b) + Count(c) <= LLONG_MAX
    ensures Assoc(a, b, c)
  {
    CompatFits(a, b, c);
    MergeAssociativeIff(a, b, c);
  }
}
