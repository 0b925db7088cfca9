/** A valid node tree: closed (no link dangles), well-linked (first/last
    child links, mutual sibling links, acyclic child chains) and acyclic in
    its parent links (no node is its own ancestor). Every mutation of
    js/lib/node.js keeps an arena valid, given the preconditions its callers
    must meet. */
module Validity {
  import opened Optional
  import opened Node
  import opened Links
  import opened Ancestry

  ghost predicate Valid(a: Arena) {
    Closed(a) && WellLinked(a) && Acyclic(a)
  }

  /** Closedness comes with well-linkedness. */
  lemma LinkedAcyclicValid(a: Arena)
    requires WellLinked(a) && Acyclic(a)
    ensures Valid(a)
  {
    var kids :| LinkedBy(a, kids);
    LinkedClosed(a, kids);
  }

  // ---------------------------------------------------------------------
  // The parent links after each mutation
  // ---------------------------------------------------------------------

  lemma UnlinkReparents(a: Arena, n: NodeId)
    requires n in a
    ensures Reparented(a, Unlink(a, n), n, None)
  {
    forall m | m in a && m != n
      ensures Unlink(a, n)[m].parent == a[m].parent
    {
      UnlinkKeepsParent(a, n, m);
    }
  }

  lemma LinkLastParents(a: Arena, p: NodeId, c: NodeId, m: NodeId)
    requires p in a && m in a
    ensures LinkLast(a, p, c)[m].parent == a[m].parent
  {
  }

  lemma LinkFirstParents(a: Arena, p: NodeId, c: NodeId, m: NodeId)
    requires p in a && m in a
    ensures LinkFirst(a, p, c)[m].parent == a[m].parent
  {
  }

  lemma AppendChildReparents(a: Arena, p: NodeId, c: NodeId)
    requires p in a && c in a && c != p && !IsAncestor(a, c, p)
    ensures Reparented(a, AppendChild(a, p, c), c, Some(p))
  {
    var a1 := SetParent(Unlink(a, c), c, Some(p));
    UnlinkReparents(a, c);
    forall m | m in a
      ensures AppendChild(a, p, c)[m].parent == a1[m].parent
    {
      LinkLastParents(a1, p, c, m);
    }
  }

  lemma PrependChildReparents(a: Arena, p: NodeId, c: NodeId)
    requires p in a && c in a && c != p && !IsAncestor(a, c, p)
    ensures Reparented(a, PrependChild(a, p, c), c, Some(p))
  {
    var a1 := SetParent(Unlink(a, c), c, Some(p));
    UnlinkReparents(a, c);
    forall m | m in a
      ensures PrependChild(a, p, c)[m].parent == a1[m].parent
    {
      LinkFirstParents(a1, p, c, m);
    }
  }

  lemma SpliceParents(a: Arena, t: NodeId, s: NodeId, atEnd: bool, m: NodeId)
    requires t in a && s in a && m in a && m != s && a[t].parent.Some?
    ensures var a5 := if atEnd then LinkAfter(a, t, s) else LinkBefore(a, t, s);
      AdoptParent(a5, t, s, atEnd)[m].parent == a[m].parent
  {
  }

  lemma InsertAfterReparents(a: Arena, t: NodeId, s: NodeId)
    requires t in a && s in a && a[t].parent.Some? && s != t && !IsAncestor(a, s, t)
    ensures Reparented(a, InsertAfter(a, t, s), s, a[t].parent)
  {
    var a1 := Unlink(a, s);
    UnlinkReparents(a, s);
    forall m | m in a && m != s
      ensures InsertAfter(a, t, s)[m].parent == a1[m].parent
    {
      SpliceParents(a1, t, s, true, m);
    }
  }

  lemma InsertBeforeReparents(a: Arena, t: NodeId, s: NodeId)
    requires t in a && s in a && a[t].parent.Some? && s != t && !IsAncestor(a, s, t)
    ensures Reparented(a, InsertBefore(a, t, s), s, a[t].parent)
  {
    var a1 := Unlink(a, s);
    UnlinkReparents(a, s);
    forall m | m in a && m != s
      ensures InsertBefore(a, t, s)[m].parent == a1[m].parent
    {
      SpliceParents(a1, t, s, false, m);
    }
  }

  // ---------------------------------------------------------------------
  // Validity is kept
  // ---------------------------------------------------------------------

  lemma AddNodeKeepsChain(a: Arena, kids: Kids, id: NodeId, kind: Kind, p: NodeId)
    requires LinkedBy(a, kids) && id !in a && p in a
    ensures Chained(AddNode(a, id, kind), p, kids[p])
  {
    var r := AddNode(a, id, kind);
    assert Chained(a, p, kids[p]);
    forall i: nat | i < |kids[p]|
      ensures SiblingAt(r, p, kids[p], i)
    {
      assert SiblingAt(a, p, kids[p], i);
    }
  }

  /** A fresh node has no children and is nobody's child. */
  lemma AddNodeKeepsLinks(a: Arena, kids: Kids, id: NodeId, kind: Kind)
    requires LinkedBy(a, kids) && id !in a
    ensures LinkedBy(AddNode(a, id, kind), kids[id := []])
  {
    var r, kids' := AddNode(a, id, kind), kids[id := []];
    forall p | p in r
      ensures Chained(r, p, kids'[p])
    {
      if p != id {
        AddNodeKeepsChain(a, kids, id, kind, p);
      }
    }
    forall n | n in r
      ensures Placed(r, kids', n)
    {
      if n != id {
        assert Placed(a, kids, n);
      }
    }
  }

  lemma AddNodeKeepsRank(a: Arena, rank: Rank, id: NodeId, kind: Kind)
    requires Closed(a) && RankedBy(a, rank) && id !in a
    ensures RankedBy(AddNode(a, id, kind), rank[id := 0])
  {
    var r := AddNode(a, id, kind);
    forall n | n in r
      ensures ParentRanked(r, rank[id := 0], n)
    {
      if n != id {
        assert ParentRanked(a, rank, n) && RecIn(a, a[n]);
      }
    }
  }

  /** A fresh node keeps the arena valid. */
  lemma AddNodeKeepsValid(a: Arena, id: NodeId, kind: Kind)
    requires Valid(a) && id !in a
    ensures Valid(AddNode(a, id, kind))
  {
    var kids :| LinkedBy(a, kids);
    AddNodeKeepsLinks(a, kids, id, kind);
    LinkedClosed(a, kids);
    var rank := AcyclicRanked(a);
    AddNodeKeepsRank(a, rank, id, kind);
    RankedAcyclic(AddNode(a, id, kind), rank[id := 0]);
    LinkedAcyclicValid(AddNode(a, id, kind));
  }

  lemma UnlinkKeepsValid(a: Arena, n: NodeId)
    requires Valid(a) && n in a
    ensures Valid(Unlink(a, n))
  {
    var kids :| LinkedBy(a, kids);
    UnlinkKeepsLinks(a, kids, n);
    UnlinkReparents(a, n);
    OrphanKeepsAcyclic(a, Unlink(a, n), n);
    LinkedAcyclicValid(Unlink(a, n));
  }

  lemma AppendChildKeepsValid(a: Arena, p: NodeId, c: NodeId)
    requires Valid(a) && p in a && c in a && c != p && !IsAncestor(a, c, p)
    ensures Valid(AppendChild(a, p, c))
  {
    var kids :| LinkedBy(a, kids);
    AppendChildKeepsLinks(a, kids, p, c);
    AppendChildReparents(a, p, c);
    AdoptKeepsAcyclic(a, AppendChild(a, p, c), c, p);
    LinkedAcyclicValid(AppendChild(a, p, c));
  }

  lemma PrependChildKeepsValid(a: Arena, p: NodeId, c: NodeId)
    requires Valid(a) && p in a && c in a && c != p && !IsAncestor(a, c, p)
    ensures Valid(PrependChild(a, p, c))
  {
    var kids :| LinkedBy(a, kids);
    PrependChildKeepsLinks(a, kids, p, c);
    PrependChildReparents(a, p, c);
    AdoptKeepsAcyclic(a, PrependChild(a, p, c), c, p);
    LinkedAcyclicValid(PrependChild(a, p, c));
  }

  /** What an insertion below the parent of `t` needs: that parent is in
      the arena, and `s` is neither it nor one of its ancestors. */
  lemma SiblingMayMove(a: Arena, kids: Kids, t: NodeId, s: NodeId)
    requires LinkedBy(a, kids) && t in a && a[t].parent.Some? && !IsAncestor(a, s, t)
    ensures var p := a[t].parent.value;
      p in a && s != p && !IsAncestor(a, s, p)
  {
    assert Placed(a, kids, t);
    ParentNotAncestor(a, t, s);
    if IsAncestor(a, s, a[t].parent.value) {
      AncestorOfParent(a, s, t);
    }
  }

  lemma InsertAfterKeepsValid(a: Arena, t: NodeId, s: NodeId)
    requires Valid(a) && t in a && s in a
    requires a[t].parent.Some? && s != t && !IsAncestor(a, s, t)
    ensures Valid(InsertAfter(a, t, s))
  {
    var kids :| LinkedBy(a, kids);
    InsertAfterKeepsLinks(a, kids, t, s);
    InsertAfterReparents(a, t, s);
    SiblingMayMove(a, kids, t, s);
    AdoptKeepsAcyclic(a, InsertAfter(a, t, s), s, a[t].parent.value);
    LinkedAcyclicValid(InsertAfter(a, t, s));
  }

  lemma InsertBeforeKeepsValid(a: Arena, t: NodeId, s: NodeId)
    requires Valid(a) && t in a && s in a
    requires a[t].parent.Some? && s != t && !IsAncestor(a, s, t)
    ensures Valid(InsertBefore(a, t, s))
  {
    var kids :| LinkedBy(a, kids);
    InsertBeforeKeepsLinks(a, kids, t, s);
    InsertBeforeReparents(a, t, s);
    SiblingMayMove(a, kids, t, s);
    AdoptKeepsAcyclic(a, InsertBefore(a, t, s), s, a[t].parent.value);
    LinkedAcyclicValid(InsertBefore(a, t, s));
  }
}
