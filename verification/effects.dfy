/** The link-level effect of each mutation of js/lib/node.js on a well-linked
    arena, stated in terms of the links just before the splice: which
    fields of which nodes it rewrites, and to what. */
module Effects {
  import opened Optional
  import opened Node
  import opened Links

  // ---------------------------------------------------------------------
  // unlink
  // ---------------------------------------------------------------------

  /** The record of `m` once `n` has been unlinked, read off the links `n`
      had: the neighbours of `n` are joined, the parent's first (last)
      child moves past `n` when `n` was first (last), and `n` keeps its
      own children but loses its parent and siblings. */
  function UnlinkedNode(a: Arena, n: NodeId, m: NodeId): NodeRec
    requires n in a && m in a
  {
    var x, y := a[n], a[m];
    y.(parent := if m == n then None else y.parent,
       prev := if m == n then None else if x.next == Some(m) then x.prev else y.prev,
       next := if m == n then None else if x.prev == Some(m) then x.next else y.next,
       firstChild := if x.parent == Some(m) && x.prev.None? then x.next else y.firstChild,
       lastChild := if x.parent == Some(m) && x.next.None? then x.prev else y.lastChild)
  }

  lemma UnlinkNodeAt(a: Arena, kids: Kids, n: NodeId, m: NodeId)
    requires LinkedBy(a, kids) && n in a && m in a
    ensures Unlink(a, n)[m] == UnlinkedNode(a, n, m)
  {
    if a[n].parent.None? {
      assert Placed(a, kids, n);
      UnlinkDetachedIsNoop(a, n);
    } else {
      var p, i := ChildIndex(a, kids, n);
      var s := kids[p];
      assert NeighboursDiffer(s, i);
      UnlinkAt(a, n, p, s, i, m);
    }
  }

  /** `unlink(n)` on a well-linked arena: every node ends up as
      `UnlinkedNode` says. In particular `n` is left with no parent and no
      siblings, `n.prev.next == n.next`, `n.next.prev == n.prev`, and a
      detached `n` changes nothing. */
  lemma UnlinkSplices(a: Arena, n: NodeId)
    requires WellLinked(a) && n in a
    ensures forall m | m in a :: Unlink(a, n)[m] == UnlinkedNode(a, n, m)
  {
    var kids :| LinkedBy(a, kids);
    forall m | m in a
      ensures Unlink(a, n)[m] == UnlinkedNode(a, n, m)
    {
      UnlinkNodeAt(a, kids, n, m);
    }
  }

  // ---------------------------------------------------------------------
  // appendChild and prependChild
  // ---------------------------------------------------------------------

  /** `appendChild(c)` on `p`: `c` ends the chain with no successor, its
      predecessor is the last child `p` had once `c` was unlinked, that
      node now points on to `c`, and `c` is also the first child exactly
      when `p` had no children. */
  lemma AppendChildLinks(a: Arena, p: NodeId, c: NodeId)
    requires WellLinked(a) && p in a && c in a && c != p && !IsAncestor(a, c, p)
    ensures var a1, r := Unlink(a, c), AppendChild(a, p, c);
      && r[c].next.None? && r[c].prev == a1[p].lastChild
      && r[p].firstChild == (if a1[p].firstChild.None? then Some(c) else a1[p].firstChild)
      && (a1[p].lastChild.Some? ==>
            a1[p].lastChild.value in r && r[a1[p].lastChild.value].next == Some(c))
  {
    var kids :| LinkedBy(a, kids);
    var a1, k1 := Unlink(a, c), KidsWithout(a, kids, c);
    UnlinkedForAttach(a, kids, p, c);
    var t := k1[p];
    var r := AppendChild(a, p, c);
    AppendAt(a1, p, t, c, c);
    AppendAt(a1, p, t, c, p);
    if |t| > 0 {
      assert InsertAt(t, |t|, c)[|t| - 1] == t[|t| - 1];
      assert t[|t| - 1] in a1 by {
        assert Chained(a1, p, t) && SiblingAt(a1, p, t, |t| - 1);
      }
      AppendAt(a1, p, t, c, t[|t| - 1]);
    }
  }

  /** `prependChild(c)` on `p`: the mirror image of `AppendChildLinks`. */
  lemma PrependChildLinks(a: Arena, p: NodeId, c: NodeId)
    requires WellLinked(a) && p in a && c in a && c != p && !IsAncestor(a, c, p)
    ensures var a1, r := Unlink(a, c), PrependChild(a, p, c);
      && r[c].prev.None? && r[c].next == a1[p].firstChild
      && r[p].lastChild == (if a1[p].lastChild.None? then Some(c) else a1[p].lastChild)
      && (a1[p].firstChild.Some? ==>
            a1[p].firstChild.value in r && r[a1[p].firstChild.value].prev == Some(c))
  {
    var kids :| LinkedBy(a, kids);
    var a1, k1 := Unlink(a, c), KidsWithout(a, kids, c);
    UnlinkedForAttach(a, kids, p, c);
    var t := k1[p];
    var r := PrependChild(a, p, c);
    PrependAt(a1, p, t, c, c);
    PrependAt(a1, p, t, c, p);
    if |t| > 0 {
      assert InsertAt(t, 0, c)[1] == t[0];
      assert t[0] in a1 by {
        assert Chained(a1, p, t) && SiblingAt(a1, p, t, 0);
      }
      PrependAt(a1, p, t, c, t[0]);
    }
  }

  // ---------------------------------------------------------------------
  // insertAfter and insertBefore
  // ---------------------------------------------------------------------

  /** Splicing a detached `s` in after the `k`-th child of `p`. */
  lemma LinkAfterFields(a: Arena, p: NodeId, u: seq<NodeId>, k: nat, s: NodeId)
    requires DetachedFrom(a, p, u, s) && k < |u| && Chained(a, p, u) && Distinct(u)
    requires SiblingAt(a, p, u, k)
    ensures var t, r := u[k], AdoptParent(LinkAfter(a, u[k], s), u[k], s, true);
      && r[s].next == a[t].next
      && (a[t].next.Some? ==> a[t].next.value in r && r[a[t].next.value].prev == Some(s))
      && r[p].lastChild == (if a[t].next.None? then Some(s) else a[p].lastChild)
      && r[p].firstChild == a[p].firstChild
  {
    InsertAfterAt(a, p, u, k, s, s);
    InsertAfterAt(a, p, u, k, s, p);
    if k + 1 < |u| {
      assert InsertAt(u, k + 1, s)[k + 2] == u[k + 1];
      assert SiblingAt(a, p, u, k + 1);
      InsertAfterAt(a, p, u, k, s, u[k + 1]);
    }
  }

  /** Splicing a detached `s` in before the `k`-th child of `p`. */
  lemma LinkBeforeFields(a: Arena, p: NodeId, u: seq<NodeId>, k: nat, s: NodeId)
    requires DetachedFrom(a, p, u, s) && k < |u| && Chained(a, p, u) && Distinct(u)
    requires SiblingAt(a, p, u, k)
    ensures var t, r := u[k], AdoptParent(LinkBefore(a, u[k], s), u[k], s, false);
      && r[s].prev == a[t].prev
      && (a[t].prev.Some? ==> a[t].prev.value in r && r[a[t].prev.value].next == Some(s))
      && r[p].firstChild == (if a[t].prev.None? then Some(s) else a[p].firstChild)
      && r[p].lastChild == a[p].lastChild
  {
    InsertBeforeAt(a, p, u, k, s, s);
    InsertBeforeAt(a, p, u, k, s, p);
    if 0 < k {
      assert InsertAt(u, k, s)[k - 1] == u[k - 1];
      assert SiblingAt(a, p, u, k - 1);
      InsertBeforeAt(a, p, u, k, s, u[k - 1]);
    }
  }

  /** `t.insertAfter(s)`: `s` takes over the successor `t` had once `s` was
      unlinked, that successor points back at `s`, and the parent's last
      child becomes `s` exactly when `t` was last; its first child stays. */
  lemma InsertAfterLinks(a: Arena, t: NodeId, s: NodeId)
    requires WellLinked(a) && t in a && s in a
    requires a[t].parent.Some? && s != t && !IsAncestor(a, s, t)
    ensures var a1, r, p := Unlink(a, s), InsertAfter(a, t, s), a[t].parent.value;
      && p in r
      && r[s].next == a1[t].next
      && (a1[t].next.Some? ==> a1[t].next.value in r && r[a1[t].next.value].prev == Some(s))
      && r[p].lastChild == (if a1[t].next.None? then Some(s) else a1[p].lastChild)
      && r[p].firstChild == a1[p].firstChild
  {
    var kids :| LinkedBy(a, kids);
    var q := a[t].parent.value;
    ParentNotAncestor(a, t, s);
    assert Placed(a, kids, t);
    var a1, k1 := Unlink(a, s), KidsWithout(a, kids, s);
    UnlinkedForAttach(a, kids, q, s);
    UnlinkKeepsParent(a, s, t);
    var q', k := ChildIndex(a1, k1, t);
    assert Chained(a1, q, k1[q]);
    LinkAfterFields(a1, q, k1[q], k, s);
  }

  /** `t.insertBefore(s)`: the mirror image of `InsertAfterLinks`. */
  lemma InsertBeforeLinks(a: Arena, t: NodeId, s: NodeId)
    requires WellLinked(a) && t in a && s in a
    requires a[t].parent.Some? && s != t && !IsAncestor(a, s, t)
    ensures var a1, r, p := Unlink(a, s), InsertBefore(a, t, s), a[t].parent.value;
      && p in r
      && r[s].prev == a1[t].prev
      && (a1[t].prev.Some? ==> a1[t].prev.value in r && r[a1[t].prev.value].next == Some(s))
      && r[p].firstChild == (if a1[t].prev.None? then Some(s) else a1[p].firstChild)
      && r[p].lastChild == a1[p].lastChild
  {
    var kids :| LinkedBy(a, kids);
    var q := a[t].parent.value;
    ParentNotAncestor(a, t, s);
    assert Placed(a, kids, t);
    var a1, k1 := Unlink(a, s), KidsWithout(a, kids, s);
    UnlinkedForAttach(a, kids, q, s);
    UnlinkKeepsParent(a, s, t);
    var q', k := ChildIndex(a1, k1, t);
    assert Chained(a1, q, k1[q]);
    LinkBeforeFields(a1, q, k1[q], k, s);
  }
}
