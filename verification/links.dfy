/** Well-linkedness of an arena: first and last child links that match the
    ends of each child chain, mutual sibling links between neighbours that
    share a parent, and child chains that run without repetition from
    `firstChild` to `lastChild`. Every mutation of js/lib/node.js must keep
    these.

    The child chain of every node is given by a ghost map `kids` from each
    node to the sequence of its children; `LinkedBy(a, kids)` says that the
    `firstChild`, `lastChild`, `prev`, `next` and `parent` links of `a` are
    exactly the ones that sequence dictates, and that a node without a parent
    has no siblings either. An arena is well linked when some such map
    exists. */
module Links {
  import opened Optional
  import opened Node

  type Kids = map<NodeId, seq<NodeId>>

  function FirstOf(s: seq<NodeId>): Option<NodeId> {
    if |s| == 0 then None else Some(s[0])
  }

  function LastOf(s: seq<NodeId>): Option<NodeId> {
    if |s| == 0 then None else Some(s[|s| - 1])
  }

  function PrevIn(s: seq<NodeId>, i: nat): Option<NodeId>
    requires i < |s|
  {
    if i == 0 then None else Some(s[i - 1])
  }

  function NextIn(s: seq<NodeId>, i: nat): Option<NodeId>
    requires i < |s|
  {
    if i + 1 == |s| then None else Some(s[i + 1])
  }

  /** The `i`-th child of `p` points back at `p` and at its neighbours. */
  ghost predicate SiblingAt(a: Arena, p: NodeId, s: seq<NodeId>, i: nat)
    requires i < |s|
  {
    && s[i] in a
    && a[s[i]].parent == Some(p)
    && a[s[i]].prev == PrevIn(s, i)
    && a[s[i]].next == NextIn(s, i)
  }

  /** `s` is the child chain of `p`: it runs from `firstChild` to
      `lastChild` through `next`, with `prev` mirroring `next`. */
  ghost predicate Chained(a: Arena, p: NodeId, s: seq<NodeId>)
    requires p in a
  {
    && a[p].firstChild == FirstOf(s)
    && a[p].lastChild == LastOf(s)
    && forall i: nat | i < |s| :: SiblingAt(a, p, s, i)
  }

  /** A node with a parent is one of its children; a node without one has
      no siblings either. */
  ghost predicate Placed(a: Arena, kids: Kids, n: NodeId)
    requires n in a
  {
    match a[n].parent
    case None => a[n].prev.None? && a[n].next.None?
    case Some(p) => p in kids && n in kids[p]
  }

  ghost predicate LinkedBy(a: Arena, kids: Kids) {
    && kids.Keys == a.Keys
    && (forall p | p in a :: Chained(a, p, kids[p]))
    && (forall n | n in a :: Placed(a, kids, n))
  }

  ghost predicate WellLinked(a: Arena) {
    exists kids :: LinkedBy(a, kids)
  }

  // ---------------------------------------------------------------------
  // Sequence helpers
  // ---------------------------------------------------------------------

  ghost predicate Distinct(s: seq<NodeId>) {
    forall i, j | 0 <= i < j < |s| :: s[i] != s[j]
  }

  function IndexOf(s: seq<NodeId>, x: NodeId): (i: nat)
    requires x in s
    ensures i < |s| && s[i] == x
  {
    if s[0] == x then 0 else 1 + IndexOf(s[1..], x)
  }

  function RemoveAt(s: seq<NodeId>, i: nat): (r: seq<NodeId>)
    requires i < |s|
    ensures |r| == |s| - 1
    ensures forall j | 0 <= j < i :: r[j] == s[j]
    ensures forall j | i <= j < |r| :: r[j] == s[j + 1]
  {
    s[..i] + s[i + 1..]
  }

  function InsertAt(s: seq<NodeId>, i: nat, x: NodeId): (r: seq<NodeId>)
    requires i <= |s|
    ensures |r| == |s| + 1 && r[i] == x
    ensures forall j | 0 <= j < i :: r[j] == s[j]
    ensures forall j | i < j < |r| :: r[j] == s[j - 1]
  {
    s[..i] + [x] + s[i..]
  }

  /** `u` with `s` placed right after the element `t`. */
  function SpliceAfter(u: seq<NodeId>, t: NodeId, s: NodeId): (r: seq<NodeId>)
    requires t in u
    ensures |r| == |u| + 1 && r[IndexOf(u, t)] == t && r[IndexOf(u, t) + 1] == s
  {
    InsertAt(u, IndexOf(u, t) + 1, s)
  }

  /** `u` with `s` placed right before the element `t`. */
  function SpliceBefore(u: seq<NodeId>, t: NodeId, s: NodeId): (r: seq<NodeId>)
    requires t in u
    ensures |r| == |u| + 1 && r[IndexOf(u, t)] == s && r[IndexOf(u, t) + 1] == t
  {
    InsertAt(u, IndexOf(u, t), s)
  }

  lemma InsertAtEnds(s: seq<NodeId>, x: NodeId)
    ensures InsertAt(s, 0, x) == [x] + s && InsertAt(s, |s|, x) == s + [x]
  {
    assert s[..|s|] == s && s[0..] == s;
  }

  /** The neighbours of position `i` are not the node at `i`. */
  ghost predicate NeighboursDiffer(s: seq<NodeId>, i: nat)
    requires i < |s|
  {
    (0 < i ==> s[i - 1] != s[i]) && (i + 1 < |s| ==> s[i + 1] != s[i])
  }

  // ---------------------------------------------------------------------
  // Consequences of well-linkedness
  // ---------------------------------------------------------------------

  lemma {:induction false} NoRepeat(a: Arena, p: NodeId, s: seq<NodeId>, i: nat, j: nat)
    requires p in a && Chained(a, p, s)
    requires i < j < |s| && s[i] == s[j]
    ensures false
    decreases i
  {
    assert SiblingAt(a, p, s, i) && SiblingAt(a, p, s, j);
    if i > 0 {
      NoRepeat(a, p, s, i - 1, j - 1);
    }
  }

  /** A child chain never visits a node twice (the chain is acyclic). */
  lemma ChainDistinct(a: Arena, p: NodeId, s: seq<NodeId>)
    requires p in a && Chained(a, p, s)
    ensures Distinct(s)
  {
    forall i, j | 0 <= i < j < |s|
      ensures s[i] != s[j]
    {
      if s[i] == s[j] {
        NoRepeat(a, p, s, i, j);
      }
    }
  }

  /** Well-linked arenas are closed: every link names a node. */
  lemma LinkedRecIn(a: Arena, kids: Kids, n: NodeId)
    requires LinkedBy(a, kids) && n in a
    ensures RecIn(a, a[n])
  {
    assert Chained(a, n, kids[n]);
    assert Placed(a, kids, n);
    var s := kids[n];
    if |s| > 0 {
      assert SiblingAt(a, n, s, 0) && SiblingAt(a, n, s, |s| - 1);
    }
    match a[n].parent
    case None =>
    case Some(p) =>
      var i := IndexOf(kids[p], n);
      assert Chained(a, p, kids[p]) && SiblingAt(a, p, kids[p], i);
      if 0 < i {
        assert SiblingAt(a, p, kids[p], i - 1);
      }
      if i + 1 < |kids[p]| {
        assert SiblingAt(a, p, kids[p], i + 1);
      }
  }

  /** Two chains of the same parent agree up to position `i`. */
  lemma {:induction false} ChainPrefix(a: Arena, p: NodeId, s1: seq<NodeId>, s2: seq<NodeId>, i: nat)
    requires p in a && Chained(a, p, s1) && Chained(a, p, s2)
    requires i < |s1| && i < |s2|
    ensures s1[i] == s2[i]
    decreases i
  {
    if i == 0 {
      assert FirstOf(s1) == FirstOf(s2);
    } else {
      ChainPrefix(a, p, s1, s2, i - 1);
      assert SiblingAt(a, p, s1, i - 1) && SiblingAt(a, p, s2, i - 1);
    }
  }

  /** Two chains of the same parent that share a node at `i` both end there
      or both go on. */
  lemma ChainLast(a: Arena, p: NodeId, s1: seq<NodeId>, s2: seq<NodeId>, i: nat)
    requires p in a && Chained(a, p, s1) && Chained(a, p, s2)
    requires i < |s1| && i < |s2| && s1[i] == s2[i]
    ensures i + 1 < |s1| <==> i + 1 < |s2|
  {
    assert SiblingAt(a, p, s1, i) && SiblingAt(a, p, s2, i);
  }

  /** The links determine the chain: a parent has one child sequence. */
  lemma ChainUnique(a: Arena, p: NodeId, s1: seq<NodeId>, s2: seq<NodeId>)
    requires p in a && Chained(a, p, s1) && Chained(a, p, s2)
    ensures s1 == s2
  {
    if 0 < |s1| && 0 < |s2| {
      var m := (if |s1| < |s2| then |s1| else |s2|) - 1;
      ChainPrefix(a, p, s1, s2, m);
      ChainLast(a, p, s1, s2, m);
    }
    assert |s1| == |s2|;
    forall i | 0 <= i < |s1|
      ensures s1[i] == s2[i]
    {
      ChainPrefix(a, p, s1, s2, i);
    }
  }

  /** At most one children map explains the links of an arena. */
  lemma LinkedUnique(a: Arena, k1: Kids, k2: Kids)
    requires LinkedBy(a, k1) && LinkedBy(a, k2)
    ensures k1 == k2
  {
    forall p | p in a
      ensures k1[p] == k2[p]
    {
      ChainUnique(a, p, k1[p], k2[p]);
    }
  }

  /** Every link of a well-linked arena points into the arena. */
  lemma LinkedClosed(a: Arena, kids: Kids)
    requires LinkedBy(a, kids)
    ensures Closed(a)
  {
    forall n | n in a
      ensures RecIn(a, a[n])
    {
      LinkedRecIn(a, kids, n);
    }
  }


  /** Where the `kids` of a well-linked arena put a node. */
  lemma ChildIndex(a: Arena, kids: Kids, n: NodeId) returns (p: NodeId, i: nat)
    requires LinkedBy(a, kids) && n in a && a[n].parent.Some?
    ensures p == a[n].parent.value && p in a
    ensures i < |kids[p]| && kids[p][i] == n
    ensures Distinct(kids[p]) && SiblingAt(a, p, kids[p], i)
  {
    p := a[n].parent.value;
    assert Placed(a, kids, n);
    i := IndexOf(kids[p], n);
    assert Chained(a, p, kids[p]);
    ChainDistinct(a, p, kids[p]);
  }

  /** A chain whose parent keeps its end links and whose members keep their
      parent and sibling links is still a chain. */
  lemma ChainKept(a: Arena, r: Arena, p: NodeId, s: seq<NodeId>)
    requires p in a && p in r && Chained(a, p, s)
    requires r[p].firstChild == a[p].firstChild && r[p].lastChild == a[p].lastChild
    requires forall i | 0 <= i < |s| :: s[i] in a && s[i] in r && SameSiblingLinks(a, r, s[i])
    ensures Chained(r, p, s)
  {
    forall i: nat | i < |s|
      ensures SiblingAt(r, p, s, i)
    {
      assert SiblingAt(a, p, s, i);
    }
  }

  ghost predicate SameSiblingLinks(a: Arena, r: Arena, m: NodeId)
    requires m in a && m in r
  {
    r[m].parent == a[m].parent && r[m].prev == a[m].prev && r[m].next == a[m].next
  }

  // ---------------------------------------------------------------------
  // unlink
  // ---------------------------------------------------------------------

  /** The children map once `n` has been unlinked. */
  ghost function KidsWithout(a: Arena, kids: Kids, n: NodeId): (k: Kids)
    requires LinkedBy(a, kids) && n in a
    ensures k.Keys == kids.Keys
  {
    match a[n].parent
    case None => kids
    case Some(p) =>
      assert Placed(a, kids, n);
      kids[p := RemoveAt(kids[p], IndexOf(kids[p], n))]
  }

  /** What `unlink` does to each node when `n` is the `i`-th child of `p`. */
  function UnlinkedRec(a: Arena, p: NodeId, s: seq<NodeId>, i: nat, m: NodeId): NodeRec
    requires m in a && i < |s|
  {
    var x := a[m];
    x.(parent := if m == s[i] then None else x.parent,
       prev := if m == s[i] then None
               else if i + 1 < |s| && m == s[i + 1] then PrevIn(s, i)
               else x.prev,
       next := if m == s[i] then None
               else if 0 < i && m == s[i - 1] then NextIn(s, i)
               else x.next,
       firstChild := if m == p && i == 0 then NextIn(s, i) else x.firstChild,
       lastChild := if m == p && i + 1 == |s| then PrevIn(s, i) else x.lastChild)
  }

  lemma UnlinkFrontAt(a: Arena, n: NodeId, p: NodeId, s: seq<NodeId>, i: nat, m: NodeId)
    requires n in a && p in a && m in a && i < |s| && s[i] == n
    requires a[n].parent == Some(p) && a[n].prev == PrevIn(s, i) && a[n].next == NextIn(s, i)
    ensures SpliceOutFront(a, n)[m] == a[m].(
      next := if 0 < i && m == s[i - 1] then NextIn(s, i) else a[m].next,
      firstChild := if m == p && i == 0 then NextIn(s, i) else a[m].firstChild)
  {
  }

  lemma UnlinkBackAt(a: Arena, n: NodeId, p: NodeId, s: seq<NodeId>, i: nat, m: NodeId)
    requires n in a && p in a && m in a && i < |s| && s[i] == n
    requires a[n].parent == Some(p) && a[n].prev == PrevIn(s, i) && a[n].next == NextIn(s, i)
    ensures SpliceOutBack(a, n)[m] == a[m].(
      prev := if i + 1 < |s| && m == s[i + 1] then PrevIn(s, i) else a[m].prev,
      lastChild := if m == p && i + 1 == |s| then PrevIn(s, i) else a[m].lastChild)
  {
  }

  lemma UnlinkAt(a: Arena, n: NodeId, p: NodeId, s: seq<NodeId>, i: nat, m: NodeId)
    requires n in a && p in a && m in a
    requires i < |s| && s[i] == n && NeighboursDiffer(s, i) && SiblingAt(a, p, s, i)
    ensures Unlink(a, n)[m] == UnlinkedRec(a, p, s, i, m)
  {
    var a1 := SpliceOutFront(a, n);
    UnlinkFrontAt(a, n, p, s, i, n);
    UnlinkFrontAt(a, n, p, s, i, m);
    UnlinkBackAt(a1, n, p, s, i, m);
    var a2 := SpliceOutBack(a1, n);
    var x, y := Unlink(a, n)[m], UnlinkedRec(a, p, s, i, m);
    if m == n {
      assert x.prev == y.prev && x.next == y.next;
    } else {
      assert x == a2[m];
      assert x.prev == y.prev && x.next == y.next;
    }
    assert x.kind == y.kind && x.parent == y.parent;
    assert x.firstChild == y.firstChild && x.lastChild == y.lastChild;
  }

  lemma UpdateKeys(kids: Kids, p: NodeId, v: seq<NodeId>)
    requires p in kids
    ensures kids[p := v].Keys == kids.Keys
  {
  }

  lemma InRemoveAt(s: seq<NodeId>, i: nat, x: NodeId)
    requires i < |s| && x in s && x != s[i]
    ensures x in RemoveAt(s, i)
  {
    var j := IndexOf(s, x);
    if j < i {
      assert RemoveAt(s, i)[j] == x;
    } else {
      assert RemoveAt(s, i)[j - 1] == x;
    }
  }

  lemma UnlinkFields(a: Arena, n: NodeId, p: NodeId, s: seq<NodeId>, i: nat)
    requires n in a && p in a
    requires i < |s| && s[i] == n && NeighboursDiffer(s, i) && SiblingAt(a, p, s, i)
    ensures forall m | m in a :: Unlink(a, n)[m] == UnlinkedRec(a, p, s, i, m)
  {
    forall m | m in a
      ensures Unlink(a, n)[m] == UnlinkedRec(a, p, s, i, m)
    {
      UnlinkAt(a, n, p, s, i, m);
    }
  }

  /** `r` is what `unlink` makes of `a` when it removes the `i`-th child of `p`. */
  ghost predicate UnlinkedFrom(a: Arena, r: Arena, p: NodeId, s: seq<NodeId>, i: nat)
    requires i < |s|
  {
    r.Keys == a.Keys && forall m | m in a :: r[m] == UnlinkedRec(a, p, s, i, m)
  }

  /** Chains of parents other than `p` are untouched by unlinking a child of `p`. */
  lemma UnlinkOtherChain(a: Arena, r: Arena, p: NodeId, s: seq<NodeId>, i: nat, q: NodeId, t: seq<NodeId>)
    requires p in a && q in a && q != p && i < |s| && UnlinkedFrom(a, r, p, s, i)
    requires SiblingAt(a, p, s, i) && Chained(a, q, t)
    requires 0 < i ==> SiblingAt(a, p, s, i - 1)
    requires i + 1 < |s| ==> SiblingAt(a, p, s, i + 1)
    ensures Chained(r, q, t)
  {
    forall j | 0 <= j < |t|
      ensures t[j] in a && t[j] in r && SameSiblingLinks(a, r, t[j])
    {
      assert SiblingAt(a, q, t, j);
    }
    ChainKept(a, r, q, t);
  }

  /** The chain of the former parent closes over the gap. */
  lemma UnlinkOwnChain(a: Arena, r: Arena, p: NodeId, s: seq<NodeId>, i: nat)
    requires p in a && i < |s| && Chained(a, p, s) && Distinct(s)
    requires UnlinkedFrom(a, r, p, s, i)
    ensures Chained(r, p, RemoveAt(s, i))
  {
    var s' := RemoveAt(s, i);
    assert r[p] == UnlinkedRec(a, p, s, i, p);
    forall j: nat | j < |s'|
      ensures SiblingAt(r, p, s', j)
    {
      if j < i {
        assert SiblingAt(a, p, s, j);
        assert r[s[j]] == UnlinkedRec(a, p, s, i, s[j]);
      } else {
        assert SiblingAt(a, p, s, j + 1);
        assert r[s[j + 1]] == UnlinkedRec(a, p, s, i, s[j + 1]);
      }
    }
  }

  lemma UnlinkPlaced(a: Arena, r: Arena, kids: Kids, p: NodeId, s: seq<NodeId>, i: nat, m: NodeId)
    requires p in a && m in a && p in kids && i < |s| && s == kids[p] && UnlinkedFrom(a, r, p, s, i)
    requires Placed(a, kids, m)
    requires 0 < i ==> SiblingAt(a, p, s, i - 1)
    requires i + 1 < |s| ==> SiblingAt(a, p, s, i + 1)
    ensures Placed(r, kids[p := RemoveAt(s, i)], m)
  {
    assert r[m] == UnlinkedRec(a, p, s, i, m);
    if m != s[i] && a[m].parent == Some(p) {
      InRemoveAt(s, i, m);
    }
  }

  /** The facts about `a` around its `i`-th child of `p` that unlinking it uses. */
  ghost predicate ChildSlot(a: Arena, kids: Kids, p: NodeId, i: nat)
    requires p in kids
  {
    var s := kids[p];
    && p in a && i < |s| && Distinct(s) && Chained(a, p, s)
    && SiblingAt(a, p, s, i)
    && (0 < i ==> SiblingAt(a, p, s, i - 1))
    && (i + 1 < |s| ==> SiblingAt(a, p, s, i + 1))
  }

  lemma UnlinkChains(a: Arena, r: Arena, kids: Kids, p: NodeId, i: nat)
    requires LinkedBy(a, kids) && p in kids && ChildSlot(a, kids, p, i)
    requires UnlinkedFrom(a, r, p, kids[p], i)
    ensures forall q | q in r :: Chained(r, q, kids[p := RemoveAt(kids[p], i)][q])
  {
    var s, K := kids[p], kids[p := RemoveAt(kids[p], i)];
    forall q | q in r
      ensures Chained(r, q, K[q])
    {
      if q == p {
        UnlinkOwnChain(a, r, p, s, i);
      } else {
        assert Chained(a, q, kids[q]);
        UnlinkOtherChain(a, r, p, s, i, q, kids[q]);
      }
    }
  }

  lemma UnlinkAllPlaced(a: Arena, r: Arena, kids: Kids, p: NodeId, i: nat)
    requires LinkedBy(a, kids) && p in kids && ChildSlot(a, kids, p, i)
    requires UnlinkedFrom(a, r, p, kids[p], i)
    ensures forall m | m in r :: Placed(r, kids[p := RemoveAt(kids[p], i)], m)
  {
    forall m | m in r
      ensures Placed(r, kids[p := RemoveAt(kids[p], i)], m)
    {
      assert Placed(a, kids, m);
      UnlinkPlaced(a, r, kids, p, kids[p], i, m);
    }
  }

  lemma IndexOfDistinct(s: seq<NodeId>, i: nat)
    requires i < |s| && Distinct(s)
    ensures IndexOf(s, s[i]) == i
  {
  }

  lemma KidsWithoutChild(a: Arena, kids: Kids, n: NodeId, p: NodeId, i: nat)
    requires LinkedBy(a, kids) && n in a && a[n].parent == Some(p) && p in kids
    requires i < |kids[p]| && kids[p][i] == n && Distinct(kids[p])
    ensures KidsWithout(a, kids, n) == kids[p := RemoveAt(kids[p], i)]
  {
    IndexOfDistinct(kids[p], i);
  }

  lemma UnlinkChildKeepsLinks(a: Arena, kids: Kids, n: NodeId)
    requires LinkedBy(a, kids) && n in a && a[n].parent.Some?
    ensures LinkedBy(Unlink(a, n), KidsWithout(a, kids, n))
  {
    var p, i := ChildIndex(a, kids, n);
    var s, r := kids[p], Unlink(a, n);
    KidsWithoutChild(a, kids, n, p, i);
    assert ChildSlot(a, kids, p, i) by {
      assert Chained(a, p, s);
    }
    assert UnlinkedFrom(a, r, p, s, i) by {
      assert NeighboursDiffer(s, i);
      UnlinkFields(a, n, p, s, i);
    }
    UnlinkChains(a, r, kids, p, i);
    UnlinkAllPlaced(a, r, kids, p, i);
    UpdateKeys(kids, p, RemoveAt(s, i));
  }

  /** `unlink` keeps the arena well linked: the node leaves the children of
      its former parent and every other chain stays as it was. */
  lemma UnlinkKeepsLinks(a: Arena, kids: Kids, n: NodeId)
    requires LinkedBy(a, kids) && n in a
    ensures LinkedBy(Unlink(a, n), KidsWithout(a, kids, n))
  {
    if a[n].parent.None? {
      assert Placed(a, kids, n);
      UnlinkDetachedIsNoop(a, n);
      assert KidsWithout(a, kids, n) == kids;
    } else {
      UnlinkChildKeepsLinks(a, kids, n);
    }
  }

  // ---------------------------------------------------------------------
  // Splicing a detached node into a chain: the common effect of
  // appendChild, prependChild, insertAfter and insertBefore
  // ---------------------------------------------------------------------

  /** What splicing the detached node `c` in at position `j` of the chain
      `t` of `p` does to each node. */
  function AttachedRec(a: Arena, p: NodeId, t: seq<NodeId>, j: nat, c: NodeId, m: NodeId): NodeRec
    requires m in a && j <= |t|
  {
    var x := a[m];
    var t' := InsertAt(t, j, c);
    x.(parent := if m == c then Some(p) else x.parent,
       prev := if m == c then PrevIn(t', j)
               else if j < |t| && m == t[j] then Some(c)
               else x.prev,
       next := if m == c then NextIn(t', j)
               else if 0 < j && m == t[j - 1] then Some(c)
               else x.next,
       firstChild := if m == p && j == 0 then Some(c) else x.firstChild,
       lastChild := if m == p && j == |t| then Some(c) else x.lastChild)
  }

  ghost predicate AttachedFrom(a: Arena, r: Arena, p: NodeId, t: seq<NodeId>, j: nat, c: NodeId)
    requires j <= |t|
  {
    r.Keys == a.Keys && forall m | m in a :: r[m] == AttachedRec(a, p, t, j, c, m)
  }

  lemma InInsertAt(t: seq<NodeId>, j: nat, c: NodeId, x: NodeId)
    requires j <= |t| && x in t
    ensures x in InsertAt(t, j, c)
  {
    var k := IndexOf(t, x);
    if k < j {
      assert InsertAt(t, j, c)[k] == x;
    } else {
      assert InsertAt(t, j, c)[k + 1] == x;
    }
  }

  lemma AttachOwnChain(a: Arena, r: Arena, p: NodeId, t: seq<NodeId>, j: nat, c: NodeId)
    requires p in a && c in a && j <= |t| && Chained(a, p, t) && c !in t
    requires AttachedFrom(a, r, p, t, j, c)
    ensures Chained(r, p, InsertAt(t, j, c))
  {
    var t' := InsertAt(t, j, c);
    ChainDistinct(a, p, t);
    assert r[p] == AttachedRec(a, p, t, j, c, p);
    assert r[c] == AttachedRec(a, p, t, j, c, c);
    forall k: nat | k < |t'|
      ensures SiblingAt(r, p, t', k)
    {
      if k < j {
        assert SiblingAt(a, p, t, k);
        assert j < |t| ==> t[k] != t[j];
        assert k < j - 1 ==> t[k] != t[j - 1];
        assert r[t[k]] == AttachedRec(a, p, t, j, c, t[k]);
      } else if j < k {
        assert SiblingAt(a, p, t, k - 1);
        assert 0 < j ==> t[k - 1] != t[j - 1];
        assert j < k - 1 ==> t[k - 1] != t[j];
        assert r[t[k - 1]] == AttachedRec(a, p, t, j, c, t[k - 1]);
      }
    }
  }

  lemma AttachOtherChain(a: Arena, r: Arena, p: NodeId, t: seq<NodeId>, j: nat, c: NodeId, q: NodeId, u: seq<NodeId>)
    requires p in a && q in a && q != p && j <= |t| && AttachedFrom(a, r, p, t, j, c)
    requires Chained(a, q, u) && c in a && a[c].parent.None?
    requires 0 < j ==> SiblingAt(a, p, t, j - 1)
    requires j < |t| ==> SiblingAt(a, p, t, j)
    ensures Chained(r, q, u)
  {
    forall k | 0 <= k < |u|
      ensures u[k] in a && u[k] in r && SameSiblingLinks(a, r, u[k])
    {
      assert SiblingAt(a, q, u, k);
      assert r[u[k]] == AttachedRec(a, p, t, j, c, u[k]);
    }
    assert r[q] == AttachedRec(a, p, t, j, c, q);
    ChainKept(a, r, q, u);
  }

  lemma AttachPlaced(a: Arena, r: Arena, kids: Kids, p: NodeId, j: nat, c: NodeId, m: NodeId)
    requires p in a && p in kids && m in a && j <= |kids[p]|
    requires AttachedFrom(a, r, p, kids[p], j, c)
    requires Placed(a, kids, m)
    requires 0 < j ==> SiblingAt(a, p, kids[p], j - 1)
    requires j < |kids[p]| ==> SiblingAt(a, p, kids[p], j)
    ensures Placed(r, kids[p := InsertAt(kids[p], j, c)], m)
  {
    assert r[m] == AttachedRec(a, p, kids[p], j, c, m);
    if m != c && a[m].parent == Some(p) {
      InInsertAt(kids[p], j, c, m);
    }
  }

  /** The facts about `a` around position `j` of the chain of `p` that
      splicing a node in there uses. */
  ghost predicate AttachSlot(a: Arena, kids: Kids, p: NodeId, j: nat, c: NodeId)
    requires p in kids
  {
    var t := kids[p];
    && p in a && c in a && c != p && j <= |t| && Chained(a, p, t)
    && a[c].parent.None? && c !in t
    && (0 < j ==> SiblingAt(a, p, t, j - 1))
    && (j < |t| ==> SiblingAt(a, p, t, j))
  }

  lemma AttachChains(a: Arena, r: Arena, kids: Kids, p: NodeId, j: nat, c: NodeId)
    requires LinkedBy(a, kids) && p in kids && AttachSlot(a, kids, p, j, c)
    requires AttachedFrom(a, r, p, kids[p], j, c)
    ensures forall q | q in r :: Chained(r, q, kids[p := InsertAt(kids[p], j, c)][q])
  {
    var t, K := kids[p], kids[p := InsertAt(kids[p], j, c)];
    forall q | q in r
      ensures Chained(r, q, K[q])
    {
      if q == p {
        AttachOwnChain(a, r, p, t, j, c);
      } else {
        assert Chained(a, q, kids[q]);
        AttachOtherChain(a, r, p, t, j, c, q, kids[q]);
      }
    }
  }

  lemma AttachAllPlaced(a: Arena, r: Arena, kids: Kids, p: NodeId, j: nat, c: NodeId)
    requires LinkedBy(a, kids) && p in kids && AttachSlot(a, kids, p, j, c)
    requires AttachedFrom(a, r, p, kids[p], j, c)
    ensures forall m | m in r :: Placed(r, kids[p := InsertAt(kids[p], j, c)], m)
  {
    forall m | m in r
      ensures Placed(r, kids[p := InsertAt(kids[p], j, c)], m)
    {
      assert Placed(a, kids, m);
      AttachPlaced(a, r, kids, p, j, c, m);
    }
  }

  /** Splicing a detached node into a chain keeps the arena well linked. */
  lemma AttachKeepsLinks(a: Arena, r: Arena, kids: Kids, p: NodeId, j: nat, c: NodeId)
    requires LinkedBy(a, kids) && p in kids && AttachSlot(a, kids, p, j, c)
    requires AttachedFrom(a, r, p, kids[p], j, c)
    ensures LinkedBy(r, kids[p := InsertAt(kids[p], j, c)])
  {
    AttachChains(a, r, kids, p, j, c);
    AttachAllPlaced(a, r, kids, p, j, c);
    UpdateKeys(kids, p, InsertAt(kids[p], j, c));
  }

  // ---------------------------------------------------------------------
  // The four inserting mutations, field by field
  // ---------------------------------------------------------------------

  /** The state `unlink` leaves `c` in, relative to the chain `t` of `p`. */
  ghost predicate DetachedFrom(a: Arena, p: NodeId, t: seq<NodeId>, c: NodeId) {
    && p in a && c in a && c != p
    && a[c].parent.None? && a[c].prev.None? && a[c].next.None? && c !in t
    && a[p].firstChild == FirstOf(t) && a[p].lastChild == LastOf(t)
  }

  lemma LinkLastAt(a: Arena, p: NodeId, t: seq<NodeId>, c: NodeId, m: NodeId)
    requires p in a && c in a && m in a && c != p && c !in t && a[c].prev.None?
    requires a[p].firstChild == FirstOf(t) && a[p].lastChild == LastOf(t)
    ensures LinkLast(a, p, c)[m] == a[m].(
      prev := if m == c then LastOf(t) else a[m].prev,
      next := if |t| > 0 && m == t[|t| - 1] then Some(c) else a[m].next,
      firstChild := if m == p && |t| == 0 then Some(c) else a[m].firstChild,
      lastChild := if m == p then Some(c) else a[m].lastChild)
  {
  }

  lemma AppendAt(a: Arena, p: NodeId, t: seq<NodeId>, c: NodeId, m: NodeId)
    requires DetachedFrom(a, p, t, c) && m in a
    ensures LinkLast(SetParent(a, c, Some(p)), p, c)[m] == AttachedRec(a, p, t, |t|, c, m)
  {
    LinkLastAt(SetParent(a, c, Some(p)), p, t, c, m);
    if |t| > 0 {
      assert t[|t| - 1] != c;
      assert InsertAt(t, |t|, c)[|t| - 1] == t[|t| - 1];
    }
  }

  lemma LinkFirstAt(a: Arena, p: NodeId, t: seq<NodeId>, c: NodeId, m: NodeId)
    requires p in a && c in a && m in a && c != p && c !in t && a[c].next.None?
    requires a[p].firstChild == FirstOf(t) && a[p].lastChild == LastOf(t)
    ensures LinkFirst(a, p, c)[m] == a[m].(
      next := if m == c then FirstOf(t) else a[m].next,
      prev := if |t| > 0 && m == t[0] then Some(c) else a[m].prev,
      lastChild := if m == p && |t| == 0 then Some(c) else a[m].lastChild,
      firstChild := if m == p then Some(c) else a[m].firstChild)
  {
  }

  lemma PrependAt(a: Arena, p: NodeId, t: seq<NodeId>, c: NodeId, m: NodeId)
    requires DetachedFrom(a, p, t, c) && m in a
    ensures LinkFirst(SetParent(a, c, Some(p)), p, c)[m] == AttachedRec(a, p, t, 0, c, m)
  {
    LinkFirstAt(SetParent(a, c, Some(p)), p, t, c, m);
    if |t| > 0 {
      assert t[0] != c;
      assert InsertAt(t, 0, c)[1] == t[0];
    }
  }

  lemma InsertAfterAt(a: Arena, p: NodeId, t: seq<NodeId>, k: nat, s: NodeId, m: NodeId)
    requires DetachedFrom(a, p, t, s) && m in a && k < |t| && SiblingAt(a, p, t, k)
    requires k + 1 < |t| ==> t[k + 1] != t[k]
    ensures AdoptParent(LinkAfter(a, t[k], s), t[k], s, true)[m] == AttachedRec(a, p, t, k + 1, s, m)
  {
    var tn := t[k];
    var a5 := LinkAfter(a, tn, s);
    var x, y := AdoptParent(a5, tn, s, true)[m], AttachedRec(a, p, t, k + 1, s, m);
    assert InsertAt(t, k + 1, s)[k] == tn;
    assert k + 1 < |t| ==> InsertAt(t, k + 1, s)[k + 2] == t[k + 1] && t[k + 1] != s;
    assert a5[s].next == NextIn(t, k) && a5[tn].parent == Some(p);
    assert a5[m] == a[m].(
      prev := if m == s then Some(tn) else if k + 1 < |t| && m == t[k + 1] then Some(s) else a[m].prev,
      next := if m == s then NextIn(t, k) else if m == tn then Some(s) else a[m].next);
    assert x.parent == y.parent && x.prev == y.prev && x.next == y.next;
  }

  lemma InsertBeforeAt(a: Arena, p: NodeId, t: seq<NodeId>, k: nat, s: NodeId, m: NodeId)
    requires DetachedFrom(a, p, t, s) && m in a && k < |t| && SiblingAt(a, p, t, k)
    requires 0 < k ==> t[k - 1] != t[k]
    ensures AdoptParent(LinkBefore(a, t[k], s), t[k], s, false)[m] == AttachedRec(a, p, t, k, s, m)
  {
    var tn := t[k];
    var a5 := LinkBefore(a, tn, s);
    var x, y := AdoptParent(a5, tn, s, false)[m], AttachedRec(a, p, t, k, s, m);
    assert InsertAt(t, k, s)[k + 1] == tn;
    assert 0 < k ==> InsertAt(t, k, s)[k - 1] == t[k - 1] && t[k - 1] != s;
    assert a5[s].prev == PrevIn(t, k) && a5[tn].parent == Some(p);
    assert a5[m] == a[m].(
      next := if m == s then Some(tn) else if 0 < k && m == t[k - 1] then Some(s) else a[m].next,
      prev := if m == s then PrevIn(t, k) else if m == tn then Some(s) else a[m].prev);
    assert x.parent == y.parent && x.prev == y.prev && x.next == y.next;
  }

  // ---------------------------------------------------------------------
  // appendChild, prependChild, insertAfter, insertBefore
  // ---------------------------------------------------------------------

  /** After `unlink`, `c` belongs to no chain. */
  lemma UnlinkedNotInChain(a: Arena, kids: Kids, c: NodeId, p: NodeId)
    requires LinkedBy(a, kids) && c in a && p in a && a[c].parent.None?
    ensures c !in kids[p] && Chained(a, p, kids[p])
  {
    assert Chained(a, p, kids[p]);
    forall i: nat | i < |kids[p]|
      ensures kids[p][i] != c
    {
      assert SiblingAt(a, p, kids[p], i);
    }
  }

  /** The children map once `c` has been appended to `p`. */
  ghost function KidsAppend(a: Arena, kids: Kids, p: NodeId, c: NodeId): Kids
    requires LinkedBy(a, kids) && p in a && c in a
  {
    var k1 := KidsWithout(a, kids, c);
    k1[p := k1[p] + [c]]
  }

  /** The children map once `c` has been prepended to `p`. */
  ghost function KidsPrepend(a: Arena, kids: Kids, p: NodeId, c: NodeId): Kids
    requires LinkedBy(a, kids) && p in a && c in a
  {
    var k1 := KidsWithout(a, kids, c);
    k1[p := [c] + k1[p]]
  }

  /** The state right after `unlink(c)` inside an inserting mutation: the
      arena is well linked by `KidsWithout`, and `c` is detached from the
      chain `t` of `p`. */
  lemma UnlinkedForAttach(a: Arena, kids: Kids, p: NodeId, c: NodeId)
    requires LinkedBy(a, kids) && p in a && c in a && c != p
    ensures var k1 := KidsWithout(a, kids, c);
      && LinkedBy(Unlink(a, c), k1) && p in k1
      && DetachedFrom(Unlink(a, c), p, k1[p], c)
  {
    var a1, k1 := Unlink(a, c), KidsWithout(a, kids, c);
    UnlinkKeepsLinks(a, kids, c);
    UnlinkedNotInChain(a1, k1, c, p);
  }

  lemma AppendAttached(a: Arena, p: NodeId, t: seq<NodeId>, c: NodeId)
    requires DetachedFrom(a, p, t, c)
    ensures AttachedFrom(a, LinkLast(SetParent(a, c, Some(p)), p, c), p, t, |t|, c)
  {
    forall m | m in a
      ensures LinkLast(SetParent(a, c, Some(p)), p, c)[m] == AttachedRec(a, p, t, |t|, c, m)
    {
      AppendAt(a, p, t, c, m);
    }
  }

  lemma PrependAttached(a: Arena, p: NodeId, t: seq<NodeId>, c: NodeId)
    requires DetachedFrom(a, p, t, c)
    ensures AttachedFrom(a, LinkFirst(SetParent(a, c, Some(p)), p, c), p, t, 0, c)
  {
    forall m | m in a
      ensures LinkFirst(SetParent(a, c, Some(p)), p, c)[m] == AttachedRec(a, p, t, 0, c, m)
    {
      PrependAt(a, p, t, c, m);
    }
  }

  /** Attaching a detached node at any slot of a well-linked arena keeps it
      well linked. */
  lemma AttachDetached(a: Arena, r: Arena, kids: Kids, p: NodeId, j: nat, c: NodeId)
    requires LinkedBy(a, kids) && p in kids && j <= |kids[p]|
    requires DetachedFrom(a, p, kids[p], c) && AttachedFrom(a, r, p, kids[p], j, c)
    ensures LinkedBy(r, kids[p := InsertAt(kids[p], j, c)])
  {
    var t := kids[p];
    assert Chained(a, p, t);
    assert AttachSlot(a, kids, p, j, c) by {
      if 0 < j {
        assert SiblingAt(a, p, t, j - 1);
      }
      if j < |t| {
        assert SiblingAt(a, p, t, j);
      }
    }
    AttachKeepsLinks(a, r, kids, p, j, c);
  }

  /** `appendChild` keeps the arena well linked: `c` leaves its former
      chain and becomes the last child of `p`; all other chains keep their
      order. */
  lemma AppendChildKeepsLinks(a: Arena, kids: Kids, p: NodeId, c: NodeId)
    requires LinkedBy(a, kids) && p in a && c in a && c != p && !IsAncestor(a, c, p)
    ensures LinkedBy(AppendChild(a, p, c), KidsAppend(a, kids, p, c))
  {
    var a1, k1 := Unlink(a, c), KidsWithout(a, kids, c);
    UnlinkedForAttach(a, kids, p, c);
    var t := k1[p];
    AppendAttached(a1, p, t, c);
    AttachDetached(a1, AppendChild(a, p, c), k1, p, |t|, c);
    InsertAtEnds(t, c);
  }

  /** `prependChild` keeps the arena well linked: `c` leaves its former
      chain and becomes the first child of `p`. */
  lemma PrependChildKeepsLinks(a: Arena, kids: Kids, p: NodeId, c: NodeId)
    requires LinkedBy(a, kids) && p in a && c in a && c != p && !IsAncestor(a, c, p)
    ensures LinkedBy(PrependChild(a, p, c), KidsPrepend(a, kids, p, c))
  {
    var a1, k1 := Unlink(a, c), KidsWithout(a, kids, c);
    UnlinkedForAttach(a, kids, p, c);
    var t := k1[p];
    PrependAttached(a1, p, t, c);
    AttachDetached(a1, PrependChild(a, p, c), k1, p, 0, c);
    InsertAtEnds(t, c);
  }

  /** The parent of `t` is not `s` when `s` is no ancestor of `t`. */
  lemma ParentNotAncestor(a: Arena, t: NodeId, s: NodeId)
    requires t in a && a[t].parent.Some? && !IsAncestor(a, s, t)
    ensures a[t].parent.value != s
  {
    assert Up(a, t, 1) == a[t].parent;
  }

  /** The children map once `s` has been inserted right after `t`. */
  ghost function KidsInsertAfter(a: Arena, kids: Kids, t: NodeId, s: NodeId): Kids
    requires LinkedBy(a, kids) && t in a && s in a && t != s && a[t].parent.Some?
  {
    assert Placed(a, kids, t);
    var k1, q := KidsWithout(a, kids, s), a[t].parent.value;
    // `t` is always among the children of `q` here (see `ChildIndex`)
    if t in k1[q] then k1[q := SpliceAfter(k1[q], t, s)] else k1
  }

  /** The children map once `s` has been inserted right before `t`. */
  ghost function KidsInsertBefore(a: Arena, kids: Kids, t: NodeId, s: NodeId): Kids
    requires LinkedBy(a, kids) && t in a && s in a && t != s && a[t].parent.Some?
  {
    assert Placed(a, kids, t);
    var k1, q := KidsWithout(a, kids, s), a[t].parent.value;
    // `t` is always among the children of `q` here (see `ChildIndex`)
    if t in k1[q] then k1[q := SpliceBefore(k1[q], t, s)] else k1
  }

  /** `KidsInsertAfter` in terms of the position `k` of `t` among its
      siblings once `s` has been unlinked. */
  lemma KidsInsertAfterAt(a: Arena, kids: Kids, t: NodeId, s: NodeId, k: nat)
    requires LinkedBy(a, kids) && t in a && s in a && t != s && a[t].parent.Some?
    requires var k1, q := KidsWithout(a, kids, s), a[t].parent.value;
      q in k1 && k < |k1[q]| && k1[q][k] == t && Distinct(k1[q])
    ensures var k1, q := KidsWithout(a, kids, s), a[t].parent.value;
      KidsInsertAfter(a, kids, t, s) == k1[q := InsertAt(k1[q], k + 1, s)]
  {
    var k1, q := KidsWithout(a, kids, s), a[t].parent.value;
    IndexOfDistinct(k1[q], k);
  }

  lemma KidsInsertBeforeAt(a: Arena, kids: Kids, t: NodeId, s: NodeId, k: nat)
    requires LinkedBy(a, kids) && t in a && s in a && t != s && a[t].parent.Some?
    requires var k1, q := KidsWithout(a, kids, s), a[t].parent.value;
      q in k1 && k < |k1[q]| && k1[q][k] == t && Distinct(k1[q])
    ensures var k1, q := KidsWithout(a, kids, s), a[t].parent.value;
      KidsInsertBefore(a, kids, t, s) == k1[q := InsertAt(k1[q], k, s)]
  {
    var k1, q := KidsWithout(a, kids, s), a[t].parent.value;
    IndexOfDistinct(k1[q], k);
  }

  /** Splicing a detached `s` in after the `k`-th child of `p`. */
  lemma LinkAfterKeepsLinks(a: Arena, kids: Kids, p: NodeId, k: nat, s: NodeId)
    requires LinkedBy(a, kids) && p in kids && k < |kids[p]|
    requires DetachedFrom(a, p, kids[p], s) && SiblingAt(a, p, kids[p], k) && Distinct(kids[p])
    ensures var u := kids[p];
      LinkedBy(AdoptParent(LinkAfter(a, u[k], s), u[k], s, true), kids[p := InsertAt(u, k + 1, s)])
  {
    var u := kids[p];
    var r := AdoptParent(LinkAfter(a, u[k], s), u[k], s, true);
    forall m | m in a
      ensures r[m] == AttachedRec(a, p, u, k + 1, s, m)
    {
      InsertAfterAt(a, p, u, k, s, m);
    }
    AttachDetached(a, r, kids, p, k + 1, s);
  }

  /** Splicing a detached `s` in before the `k`-th child of `p`. */
  lemma LinkBeforeKeepsLinks(a: Arena, kids: Kids, p: NodeId, k: nat, s: NodeId)
    requires LinkedBy(a, kids) && p in kids && k < |kids[p]|
    requires DetachedFrom(a, p, kids[p], s) && SiblingAt(a, p, kids[p], k) && Distinct(kids[p])
    ensures var u := kids[p];
      LinkedBy(AdoptParent(LinkBefore(a, u[k], s), u[k], s, false), kids[p := InsertAt(u, k, s)])
  {
    var u := kids[p];
    var r := AdoptParent(LinkBefore(a, u[k], s), u[k], s, false);
    forall m | m in a
      ensures r[m] == AttachedRec(a, p, u, k, s, m)
    {
      InsertBeforeAt(a, p, u, k, s, m);
    }
    AttachDetached(a, r, kids, p, k, s);
  }

  /** `insertAfter` keeps the arena well linked: `s` leaves its former chain
      and lands right after `t` in the chain of `t`'s parent; every other
      chain keeps its order. */
  lemma InsertAfterKeepsLinks(a: Arena, kids: Kids, t: NodeId, s: NodeId)
    requires LinkedBy(a, kids) && t in a && s in a
    requires a[t].parent.Some? && s != t && !IsAncestor(a, s, t)
    ensures LinkedBy(InsertAfter(a, t, s), KidsInsertAfter(a, kids, t, s))
  {
    var q := a[t].parent.value;
    ParentNotAncestor(a, t, s);
    assert Placed(a, kids, t);
    var a1, k1 := Unlink(a, s), KidsWithout(a, kids, s);
    UnlinkedForAttach(a, kids, q, s);
    UnlinkKeepsParent(a, s, t);
    var q', k := ChildIndex(a1, k1, t);
    LinkAfterKeepsLinks(a1, k1, q, k, s);
    KidsInsertAfterAt(a, kids, t, s, k);
  }

  /** `insertBefore` keeps the arena well linked: `s` lands right before
      `t` in the chain of `t`'s parent. */
  lemma InsertBeforeKeepsLinks(a: Arena, kids: Kids, t: NodeId, s: NodeId)
    requires LinkedBy(a, kids) && t in a && s in a
    requires a[t].parent.Some? && s != t && !IsAncestor(a, s, t)
    ensures LinkedBy(InsertBefore(a, t, s), KidsInsertBefore(a, kids, t, s))
  {
    var q := a[t].parent.value;
    ParentNotAncestor(a, t, s);
    assert Placed(a, kids, t);
    var a1, k1 := Unlink(a, s), KidsWithout(a, kids, s);
    UnlinkedForAttach(a, kids, q, s);
    UnlinkKeepsParent(a, s, t);
    var q', k := ChildIndex(a1, k1, t);
    LinkBeforeKeepsLinks(a1, k1, q, k, s);
    KidsInsertBeforeAt(a, kids, t, s, k);
  }
}
