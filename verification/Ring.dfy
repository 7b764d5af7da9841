/**
 Circular doubly linked lists (list.h) in an explicit memory.  A list_head is addressed by the node it is
 embedded in: as the head of the node's members or as the node's own entry among its siblings.
 */
module Ring {

  type Ptr = nat

  datatype Link = Fields(p: Ptr) | Entry(p: Ptr)

  datatype Ends = Ends(next: Link, prev: Link)

  type Links = map<Link, Ends>

  /** The i-th list_head of the ring of p with members s: the head, the members, and the head again. */
  function At(p: Ptr, s: seq<Ptr>, i: int): Link {
    if 0 < i <= |s| then Entry(s[i - 1]) else Fields(p)
  }

  /** The i-th and the next list_head point at each other. */
  predicate Linked(links: Links, p: Ptr, s: seq<Ptr>, i: int) {
    && At(p, s, i) in links && At(p, s, i + 1) in links
    && links[At(p, s, i)].next == At(p, s, i + 1)
    && links[At(p, s, i + 1)].prev == At(p, s, i)
  }

  predicate Distinct(s: seq<Ptr>) {
    forall i, j :: 0 <= i < j < |s| ==> s[i] != s[j]
  }

  /** A well-formed ring whose members are s, in order. */
  ghost predicate IsRing(links: Links, p: Ptr, s: seq<Ptr>) {
    && Distinct(s)
    && forall i :: 0 <= i <= |s| ==> Linked(links, p, s, i)
  }

  /** The list_heads of a ring. */
  ghost predicate InRing(l: Link, p: Ptr, s: seq<Ptr>) {
    l == Fields(p) || (l.Entry? && l.p in s)
  }

  function Insert(s: seq<Ptr>, k: nat, c: Ptr): seq<Ptr>
    requires k <= |s|
  {
    s[..k] + [c] + s[k..]
  }

  function Drop(s: seq<Ptr>, k: nat): seq<Ptr>
    requires k < |s|
  {
    s[..k] + s[k + 1..]
  }

  // ----- list.h

  class LinkMemory {
    var links: Links

    constructor ()
      ensures links == map[]
    {
      links := map[];
    }

    method SetNext(l: Link, x: Link)
      requires l in links
      modifies this
      ensures links == old(links)[l := Ends(x, old(links)[l].prev)]
    {
      links := links[l := Ends(x, links[l].prev)];
    }

    method SetPrev(l: Link, x: Link)
      requires l in links
      modifies this
      ensures links == old(links)[l := Ends(old(links)[l].next, x)]
    {
      links := links[l := Ends(links[l].next, x)];
    }

    /** list_insert, and list_add and list_add_tail, which differ in where they find the neighbours. */
    method ListInsert(c: Link, prev: Link, next: Link)
      requires c in links && prev in links && next in links && c != prev && c != next
      modifies this
      ensures links == Inserted(old(links), c, prev, next)
    {
      SetPrev(next, c);
      SetNext(c, next);
      SetPrev(c, prev);
      SetNext(prev, c);
    }

    method ListAdd(c: Link, head: Link)
      requires c in links && head in links && links[head].next in links && c != head && c != links[head].next
      modifies this
      ensures links == Inserted(old(links), c, head, old(links)[head].next)
    {
      var first := links[head].next;
      SetNext(c, first);
      SetPrev(first, c);
      SetNext(head, c);
      SetPrev(c, head);
    }

    method ListAddTail(c: Link, head: Link)
      requires c in links && head in links && links[head].prev in links && c != head && c != links[head].prev
      modifies this
      ensures links == Inserted(old(links), c, old(links)[head].prev, head)
    {
      var last := links[head].prev;
      SetNext(last, c);
      SetPrev(c, last);
      SetNext(c, head);
      SetPrev(head, c);
    }

    method ListDel(c: Link)
      requires c in links && links[c].prev in links && links[c].next in links
      requires links[c].prev != c && links[c].next != c
      modifies this
      ensures links == Removed(old(links), c)
    {
      SetNext(links[c].prev, links[c].next);
      SetPrev(links[c].next, links[c].prev);
    }
  }

  function Inserted(links: Links, c: Link, prev: Link, next: Link): (r: Links)
    requires c in links && prev in links && next in links && c != prev && c != next
    ensures r.Keys == links.Keys
  {
    var a := links[next := Ends(links[next].next, c)];
    var b := a[prev := Ends(c, a[prev].prev)];
    b[c := Ends(next, prev)]
  }

  function Removed(links: Links, c: Link): (r: Links)
    requires c in links && links[c].prev in links && links[c].next in links
    requires links[c].prev != c && links[c].next != c
    ensures r.Keys == links.Keys
  {
    var p, n := links[c].prev, links[c].next;
    var a := links[p := Ends(n, links[p].prev)];
    a[n := Ends(a[n].next, p)]
  }

  // ----- the ring refines the sequence of its members

  lemma AtDistinct(p: Ptr, s: seq<Ptr>, i: int, j: int)
    requires Distinct(s) && 0 <= i < j <= |s|
    ensures At(p, s, i) != At(p, s, j)
    ensures At(p, s, i + 1) != At(p, s, j + 1)
  {
  }

  /** Inserting between the k-th and the next list_head puts the member at position k. */
  lemma RingInsert(links: Links, p: Ptr, s: seq<Ptr>, k: nat, c: Ptr)
    requires IsRing(links, p, s) && k <= |s| && c !in s && Entry(c) in links
    ensures At(p, s, k) in links && At(p, s, k + 1) in links
    ensures IsRing(Inserted(links, Entry(c), At(p, s, k), At(p, s, k + 1)), p, Insert(s, k, c))
  {
    assert Linked(links, p, s, k);
    var prev, next := At(p, s, k), At(p, s, k + 1);
    var r, t := Inserted(links, Entry(c), prev, next), Insert(s, k, c);
    forall i | 0 <= i <= |t|
      ensures Linked(r, p, t, i)
    {
      if i < k {
        assert Linked(links, p, s, i);
        AtDistinct(p, s, i, k);
      } else if i > k + 1 {
        assert Linked(links, p, s, i - 1);
        AtDistinct(p, s, k, i - 1);
      }
    }
  }

  /** Unlinking the k-th member removes it from the sequence. */
  lemma RingRemove(links: Links, p: Ptr, s: seq<Ptr>, k: nat)
    requires IsRing(links, p, s) && k < |s|
    ensures var c := Entry(s[k]);
            && c in links && links[c].prev == At(p, s, k) && links[c].next == At(p, s, k + 2)
            && At(p, s, k) in links && At(p, s, k + 2) in links && At(p, s, k) != c && At(p, s, k + 2) != c
    ensures IsRing(Removed(links, Entry(s[k])), p, Drop(s, k))
  {
    assert Linked(links, p, s, k) && Linked(links, p, s, k + 1);
    AtDistinct(p, s, k, k + 1);
    var r, t := Removed(links, Entry(s[k])), Drop(s, k);
    forall i | 0 <= i <= |t|
      ensures Linked(r, p, t, i)
    {
      if i < k {
        assert Linked(links, p, s, i);
        AtDistinct(p, s, i, k);
        AtDistinct(p, s, i, k + 1);
      } else if i > k {
        assert Linked(links, p, s, i + 1);
        AtDistinct(p, s, k, i + 1);
        AtDistinct(p, s, k + 1, i + 1);
      }
    }
  }

  /** A ring is not affected by changes outside it. */
  lemma RingFrame(links: Links, links': Links, p: Ptr, s: seq<Ptr>)
    requires IsRing(links, p, s)
    requires forall l | InRing(l, p, s) && l in links :: l in links' && links'[l] == links[l]
    ensures IsRing(links', p, s)
  {
    forall i | 0 <= i <= |s|
      ensures Linked(links', p, s, i)
    {
      assert Linked(links, p, s, i);
      assert InRing(At(p, s, i), p, s) && InRing(At(p, s, i + 1), p, s);
    }
  }

  /** INIT_LIST_HEAD makes an empty ring. */
  lemma RingEmpty(links: Links, p: Ptr)
    requires Fields(p) in links && links[Fields(p)] == Ends(Fields(p), Fields(p))
    ensures IsRing(links, p, [])
  {
  }

  /** list_empty */
  lemma RingIsEmpty(links: Links, p: Ptr, s: seq<Ptr>)
    requires IsRing(links, p, s)
    ensures Fields(p) in links
    ensures links[Fields(p)].next == Fields(p) <==> s == []
  {
    assert Linked(links, p, s, 0);
  }

  /** The head of a ring determines its members. */
  lemma {:induction false} RingUnique(links: Links, p: Ptr, s: seq<Ptr>, t: seq<Ptr>, i: nat)
    requires IsRing(links, p, s) && IsRing(links, p, t) && i <= |s| && i <= |t| && s[..i] == t[..i]
    ensures s == t
    decreases |s| - i
  {
    assert At(p, s, i) == At(p, t, i) by {
      if i > 0 {
        assert s[i - 1] == s[..i][i - 1] == t[..i][i - 1] == t[i - 1];
      }
    }
    assert Linked(links, p, s, i) && Linked(links, p, t, i);
    if i < |s| {
      assert i < |t| && s[i] == t[i];
      assert s[..i + 1] == s[..i] + [s[i]] && t[..i + 1] == t[..i] + [t[i]];
      RingUnique(links, p, s, t, i + 1);
    } else {
      assert i == |t|;
    }
  }
}
