/** Acyclicity of the parent links: no node is
    its own ancestor. The mutations of js/lib/node.js keep it as long as
    the node being moved is not the target nor one of its ancestors, which
    is the one precondition the source leaves to its callers.

    The proofs go through a rank: a number per node that grows strictly
    from child to parent. A rank exists exactly when the arena is acyclic
    (`RankedAcyclic`, `AcyclicRanked`). */
module Ancestry {
  import opened Optional
  import opened Node

  ghost predicate Acyclic(a: Arena) {
    forall n | n in a :: !IsAncestor(a, n, n)
  }

  type Rank = map<NodeId, nat>

  ghost predicate ParentRanked(a: Arena, rank: Rank, n: NodeId)
    requires n in a && a.Keys <= rank.Keys
  {
    match a[n].parent
    case None => true
    case Some(p) => p in a ==> rank[n] < rank[p]
  }

  /** `rank` grows strictly along every parent link inside the arena. */
  ghost predicate RankedBy(a: Arena, rank: Rank) {
    a.Keys <= rank.Keys && forall n | n in a :: ParentRanked(a, rank, n)
  }

  // ---------------------------------------------------------------------
  // Ancestors
  // ---------------------------------------------------------------------

  /** Going up `k + 1` steps is one step to the parent, then `k` more. */
  lemma {:induction false} UpShift(a: Arena, n: NodeId, k: nat)
    ensures Up(a, n, k + 1) == match ParentOf(a, n)
                               case None => None
                               case Some(q) => Up(a, q, k)
    decreases k
  {
    if k > 0 {
      UpShift(a, n, k - 1);
    }
  }

  /** An ancestor of the parent of `n` is an ancestor of `n`. */
  lemma AncestorOfParent(a: Arena, x: NodeId, n: NodeId)
    requires n in a && a[n].parent.Some?
    requires x == a[n].parent.value || IsAncestor(a, x, a[n].parent.value)
    ensures IsAncestor(a, x, n)
  {
    var q := a[n].parent.value;
    if x == q {
      assert Up(a, n, 1) == Some(x);
    } else {
      var k: nat :| 1 <= k && Up(a, q, k) == Some(x);
      UpShift(a, n, k);
    }
  }

  /** The parent of an ancestor of `n` (or of `n` itself) is an ancestor
      of `n`. */
  lemma ParentOfAncestor(a: Arena, m: NodeId, n: NodeId)
    requires m in a && a[m].parent.Some?
    requires m == n || IsAncestor(a, m, n)
    ensures IsAncestor(a, a[m].parent.value, n)
  {
    if m == n {
      assert Up(a, n, 1) == a[m].parent;
    } else {
      var k: nat :| 1 <= k && Up(a, n, k) == Some(m);
      assert Up(a, n, k + 1) == a[m].parent;
    }
  }

  /** Each step up a ranked arena raises the rank. */
  lemma {:induction false} UpRank(a: Arena, rank: Rank, y: NodeId, k: nat, x: NodeId)
    requires RankedBy(a, rank) && y in a && x in a && Up(a, y, k) == Some(x)
    ensures rank[y] + k <= rank[x]
    decreases k
  {
    if k > 0 {
      var m := Up(a, y, k - 1).value;
      assert m in a && a[m].parent == Some(x);
      UpRank(a, rank, y, k - 1, m);
      assert ParentRanked(a, rank, m);
    }
  }

  lemma AncestorRank(a: Arena, rank: Rank, x: NodeId, y: NodeId)
    requires RankedBy(a, rank) && x in a && y in a && IsAncestor(a, x, y)
    ensures rank[y] < rank[x]
  {
    var k: nat :| 1 <= k && Up(a, y, k) == Some(x);
    UpRank(a, rank, y, k, x);
  }

  /** A ranked arena is acyclic. */
  lemma RankedAcyclic(a: Arena, rank: Rank)
    requires RankedBy(a, rank)
    ensures Acyclic(a)
  {
    forall n | n in a
      ensures !IsAncestor(a, n, n)
    {
      if IsAncestor(a, n, n) {
        AncestorRank(a, rank, n, n);
      }
    }
  }

  ghost function Ancestors(a: Arena, n: NodeId): set<NodeId> {
    set x | x in a && IsAncestor(a, x, n)
  }

  lemma ProperSubsetSmaller(s: set<NodeId>, t: set<NodeId>, x: NodeId)
    requires s <= t && x in t && x !in s
    ensures |s| < |t|
  {
    assert t == s + (t - s);
    assert x in t - s;
  }

  /** The ancestors of the parent are fewer than those of the child. */
  lemma FewerAncestors(a: Arena, n: NodeId)
    requires Acyclic(a) && n in a && a[n].parent.Some? && a[n].parent.value in a
    ensures |Ancestors(a, a[n].parent.value)| < |Ancestors(a, n)|
  {
    var p := a[n].parent.value;
    forall x | x in Ancestors(a, p)
      ensures x in Ancestors(a, n)
    {
      AncestorOfParent(a, x, n);
    }
    AncestorOfParent(a, p, n);
    assert p !in Ancestors(a, p);
    ProperSubsetSmaller(Ancestors(a, p), Ancestors(a, n), p);
  }

  /** An acyclic arena has a rank: the number of nodes that are not
      ancestors of a node. */
  lemma AcyclicRanked(a: Arena) returns (rank: Rank)
    requires Acyclic(a)
    ensures RankedBy(a, rank)
  {
    forall n | n in a
      ensures |Ancestors(a, n)| <= |a.Keys|
    {
      assert Ancestors(a, n) <= a.Keys;
      SubsetSmallerOrEqual(Ancestors(a, n), a.Keys);
    }
    rank := map n | n in a :: |a.Keys| - |Ancestors(a, n)|;
    forall n | n in a
      ensures ParentRanked(a, rank, n)
    {
      if a[n].parent.Some? && a[n].parent.value in a {
        FewerAncestors(a, n);
      }
    }
  }

  lemma SubsetSmallerOrEqual(s: set<NodeId>, t: set<NodeId>)
    requires s <= t
    ensures |s| <= |t|
  {
    assert t == s + (t - s);
  }

  // ---------------------------------------------------------------------
  // Moving one node under a new parent
  // ---------------------------------------------------------------------

  /** `r` is `a` with the parent of `c` changed to `p` (or, when `p` is
      `None`, cleared) and every other parent link as it was. */
  ghost predicate Reparented(a: Arena, r: Arena, c: NodeId, p: Option<NodeId>) {
    && r.Keys == a.Keys && c in a && r[c].parent == p
    && forall m | m in a && m != c :: r[m].parent == a[m].parent
  }

  /** Ranks raised by `d` on `p` and its ancestors. */
  ghost function Bump(a: Arena, rank: Rank, p: NodeId, d: nat): (r: Rank)
    ensures r.Keys == rank.Keys
  {
    map x | x in rank :: if x == p || IsAncestor(a, x, p) then rank[x] + d else rank[x]
  }

  /** Clearing a parent link keeps the rank. */
  lemma OrphanKeepsRank(a: Arena, r: Arena, rank: Rank, c: NodeId)
    requires RankedBy(a, rank) && Reparented(a, r, c, None)
    ensures RankedBy(r, rank)
  {
    forall m | m in r
      ensures ParentRanked(r, rank, m)
    {
      assert ParentRanked(a, rank, m);
    }
  }

  /** Hanging `c` under `p`, which is neither `c` nor below `c`, keeps a
      rank once `p` and its ancestors are raised above `c`. */
  lemma AdoptKeepsRank(a: Arena, r: Arena, rank: Rank, c: NodeId, p: NodeId)
    requires RankedBy(a, rank) && Reparented(a, r, c, Some(p))
    requires p in a && c != p && !IsAncestor(a, c, p)
    ensures RankedBy(r, Bump(a, rank, p, rank[c] + 1))
  {
    var rank' := Bump(a, rank, p, rank[c] + 1);
    forall m | m in r
      ensures ParentRanked(r, rank', m)
    {
      assert ParentRanked(a, rank, m);
      if m != c && r[m].parent.Some? && (m == p || IsAncestor(a, m, p)) {
        ParentOfAncestor(a, m, p);
      }
    }
  }

  lemma OrphanKeepsAcyclic(a: Arena, r: Arena, c: NodeId)
    requires Acyclic(a) && Reparented(a, r, c, None)
    ensures Acyclic(r)
  {
    var rank := AcyclicRanked(a);
    OrphanKeepsRank(a, r, rank, c);
    RankedAcyclic(r, rank);
  }

  lemma AdoptKeepsAcyclic(a: Arena, r: Arena, c: NodeId, p: NodeId)
    requires Acyclic(a) && Reparented(a, r, c, Some(p))
    requires p in a && c != p && !IsAncestor(a, c, p)
    ensures Acyclic(r)
  {
    var rank := AcyclicRanked(a);
    AdoptKeepsRank(a, r, rank, c, p);
    RankedAcyclic(r, Bump(a, rank, p, rank[c] + 1));
  }
}
