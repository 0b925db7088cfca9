/** The order of children as the links spell it out.

    In a well-linked arena the links of a node determine one sequence of
    children (`Children`). The lemmas here describe each mutation of
    js/lib/node.js by its effect on those sequences: the moved node leaves
    the sequence it was in and lands at its new place, and every other
    sequence keeps its order. */
module Order {
  import opened Optional
  import opened Node
  import opened Links

  /** The children of `p`, first to last. */
  ghost function Children(a: Arena, p: NodeId): (s: seq<NodeId>)
    requires WellLinked(a) && p in a
    ensures Chained(a, p, s)
  {
    var kids :| LinkedBy(a, kids);
    kids[p]
  }

  lemma ChildrenOf(a: Arena, kids: Kids, p: NodeId)
    requires LinkedBy(a, kids) && p in a
    ensures Children(a, p) == kids[p]
  {
    ChainUnique(a, p, Children(a, p), kids[p]);
  }

  /** `s` with its first occurrence of `x` removed. */
  function Without(s: seq<NodeId>, x: NodeId): (r: seq<NodeId>)
    ensures multiset(r) == multiset(s) - multiset{x}
  {
    if x in s then
      var i := IndexOf(s, x);
      assert s == s[..i] + [x] + s[i + 1..];
      s[..i] + s[i + 1..]
    else
      s
  }

  /** Removing a node from the children map removes it from every chain. */
  lemma KidsWithoutIs(a: Arena, kids: Kids, n: NodeId, q: NodeId)
    requires LinkedBy(a, kids) && n in a && q in a
    ensures KidsWithout(a, kids, n)[q] == Without(kids[q], n)
  {
    assert Placed(a, kids, n);
    assert Chained(a, q, kids[q]);
    if n in kids[q] {
      assert SiblingAt(a, q, kids[q], IndexOf(kids[q], n));
    }
  }

  /** A node without a parent is nobody's child. */
  lemma OrphanNotChild(a: Arena, n: NodeId, q: NodeId)
    requires WellLinked(a) && n in a && q in a && a[n].parent.None?
    ensures n !in Children(a, q)
  {
    var s := Children(a, q);
    forall i | 0 <= i < |s|
      ensures s[i] != n
    {
      assert SiblingAt(a, q, s, i);
    }
  }

  /** `unlink(n)`: `n` leaves the children of its parent, whose other
      children keep their order; no other sequence changes. */
  lemma UnlinkOrder(a: Arena, n: NodeId, q: NodeId)
    requires WellLinked(a) && n in a && q in a
    ensures WellLinked(Unlink(a, n))
    ensures Children(Unlink(a, n), q) == Without(Children(a, q), n)
    ensures n !in Children(Unlink(a, n), q)
  {
    var kids :| LinkedBy(a, kids);
    var r, k1 := Unlink(a, n), KidsWithout(a, kids, n);
    UnlinkKeepsLinks(a, kids, n);
    assert WellLinked(r);
    ChildrenOf(a, kids, q);
    ChildrenOf(r, k1, q);
    KidsWithoutIs(a, kids, n, q);
    OrphanNotChild(r, n, q);
  }

  /** `appendChild(c)` on `p`: `c` leaves the children it was among and
      becomes the last child of `p`; every other sequence keeps its order. */
  lemma AppendChildOrder(a: Arena, p: NodeId, c: NodeId, q: NodeId)
    requires WellLinked(a) && p in a && c in a && q in a
    requires c != p && !IsAncestor(a, c, p)
    ensures WellLinked(AppendChild(a, p, c))
    ensures Children(AppendChild(a, p, c), q)
         == if q == p then Without(Children(a, p), c) + [c] else Without(Children(a, q), c)
  {
    var kids :| LinkedBy(a, kids);
    var r, k2 := AppendChild(a, p, c), KidsAppend(a, kids, p, c);
    AppendChildKeepsLinks(a, kids, p, c);
    assert WellLinked(r);
    ChildrenOf(a, kids, q);
    ChildrenOf(r, k2, q);
    KidsWithoutIs(a, kids, c, q);
  }

  /** `prependChild(c)` on `p`: `c` becomes the first child of `p`. */
  lemma PrependChildOrder(a: Arena, p: NodeId, c: NodeId, q: NodeId)
    requires WellLinked(a) && p in a && c in a && q in a
    requires c != p && !IsAncestor(a, c, p)
    ensures WellLinked(PrependChild(a, p, c))
    ensures Children(PrependChild(a, p, c), q)
         == if q == p then [c] + Without(Children(a, p), c) else Without(Children(a, q), c)
  {
    var kids :| LinkedBy(a, kids);
    var r, k2 := PrependChild(a, p, c), KidsPrepend(a, kids, p, c);
    PrependChildKeepsLinks(a, kids, p, c);
    assert WellLinked(r);
    ChildrenOf(a, kids, q);
    ChildrenOf(r, k2, q);
    KidsWithoutIs(a, kids, c, q);
  }

  /** After `s` has been unlinked, `t` is still among the children of its
      parent. */
  lemma StaysChild(a: Arena, kids: Kids, t: NodeId, s: NodeId)
    requires LinkedBy(a, kids) && t in a && s in a && t != s && a[t].parent.Some?
    ensures t in KidsWithout(a, kids, s)[a[t].parent.value]
  {
    UnlinkKeepsLinks(a, kids, s);
    UnlinkKeepsParent(a, s, t);
    var q', k := ChildIndex(Unlink(a, s), KidsWithout(a, kids, s), t);
  }

  lemma KidsInsertAfterIs(a: Arena, kids: Kids, t: NodeId, s: NodeId, q: NodeId)
    requires LinkedBy(a, kids) && t in a && s in a && q in a
    requires a[t].parent.Some? && s != t
    ensures var p := a[t].parent.value;
      p in a && t in Without(kids[p], s)
    ensures var p, u := a[t].parent.value, Without(kids[a[t].parent.value], s);
      KidsInsertAfter(a, kids, t, s)[q]
        == if q == p then SpliceAfter(u, t, s) else Without(kids[q], s)
  {
    var p := a[t].parent.value;
    assert Placed(a, kids, t);
    StaysChild(a, kids, t, s);
    KidsWithoutIs(a, kids, s, q);
    KidsWithoutIs(a, kids, s, p);
  }

  /** `insertAfter(s)` on `t`: `s` leaves the children it was among and
      lands right after `t` among the children of `t`'s parent; every other
      sequence keeps its order. */
  lemma InsertAfterOrder(a: Arena, t: NodeId, s: NodeId, q: NodeId)
    requires WellLinked(a) && t in a && s in a && q in a
    requires a[t].parent.Some? && s != t && !IsAncestor(a, s, t)
    ensures WellLinked(InsertAfter(a, t, s))
    ensures var p := a[t].parent.value;
      p in a && t in Without(Children(a, p), s)
    ensures var p, u := a[t].parent.value, Without(Children(a, a[t].parent.value), s);
      Children(InsertAfter(a, t, s), q)
        == if q == p then SpliceAfter(u, t, s) else Without(Children(a, q), s)
  {
    var kids :| LinkedBy(a, kids);
    var p := a[t].parent.value;
    var r := InsertAfter(a, t, s);
    InsertAfterKeepsLinks(a, kids, t, s);
    assert WellLinked(r);
    KidsInsertAfterIs(a, kids, t, s, q);
    ChildrenOf(a, kids, q);
    ChildrenOf(a, kids, p);
    ChildrenOf(r, KidsInsertAfter(a, kids, t, s), q);
  }

  lemma KidsInsertBeforeIs(a: Arena, kids: Kids, t: NodeId, s: NodeId, q: NodeId)
    requires LinkedBy(a, kids) && t in a && s in a && q in a
    requires a[t].parent.Some? && s != t
    ensures var p := a[t].parent.value;
      p in a && t in Without(kids[p], s)
    ensures var p, u := a[t].parent.value, Without(kids[a[t].parent.value], s);
      KidsInsertBefore(a, kids, t, s)[q]
        == if q == p then SpliceBefore(u, t, s) else Without(kids[q], s)
  {
    var p := a[t].parent.value;
    assert Placed(a, kids, t);
    StaysChild(a, kids, t, s);
    KidsWithoutIs(a, kids, s, q);
    KidsWithoutIs(a, kids, s, p);
  }

  /** `insertBefore(s)` on `t`: `s` lands right before `t`. */
  lemma InsertBeforeOrder(a: Arena, t: NodeId, s: NodeId, q: NodeId)
    requires WellLinked(a) && t in a && s in a && q in a
    requires a[t].parent.Some? && s != t && !IsAncestor(a, s, t)
    ensures WellLinked(InsertBefore(a, t, s))
    ensures var p := a[t].parent.value;
      p in a && t in Without(Children(a, p), s)
    ensures var p, u := a[t].parent.value, Without(Children(a, a[t].parent.value), s);
      Children(InsertBefore(a, t, s), q)
        == if q == p then SpliceBefore(u, t, s) else Without(Children(a, q), s)
  {
    var kids :| LinkedBy(a, kids);
    var p := a[t].parent.value;
    var r := InsertBefore(a, t, s);
    InsertBeforeKeepsLinks(a, kids, t, s);
    assert WellLinked(r);
    KidsInsertBeforeIs(a, kids, t, s, q);
    ChildrenOf(a, kids, q);
    ChildrenOf(a, kids, p);
    ChildrenOf(r, KidsInsertBefore(a, kids, t, s), q);
  }
}
