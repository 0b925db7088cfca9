/** The AST node of js/lib/node.js, held in an arena.

    A JavaScript `Node` object becomes a `NodeRec` stored under a `NodeId` in
    an `Arena`; the object references `parent`, `firstChild`, `lastChild`,
    `prev` and `next` become `Option<NodeId>` links, with `None` for `null`.
    Every structural mutation of the source is a pure function from arena to
    arena that performs the same field writes, in the same order, as the
    JavaScript method, so that aliasing between the nodes involved behaves as
    it does there. Payload fields (literal text, list data, fence data, ...)
    are written by external builders and are not modelled. */
module Node {
  import opened Optional

  type NodeId = nat

  /** The `_type` tag of a node: the source compares it with string literals. */
  type Kind = string

  datatype NodeRec = NodeRec(
    kind: Kind,
    parent: Option<NodeId>,
    firstChild: Option<NodeId>,
    lastChild: Option<NodeId>,
    prev: Option<NodeId>,
    next: Option<NodeId>)

  type Arena = map<NodeId, NodeRec>

  /** The kinds that own children and are entered and exited by a walk. */
  const ContainerKinds: set<Kind> :=
    {"Document", "BlockQuote", "List", "Item", "Paragraph",
     "Header", "Emph", "Strong", "Link", "Image"}

  /** The `switch` of `isContainer`: ten kinds answer true, every other one,
      including kinds this module has never heard of, answers false. */
  function IsContainer(kind: Kind): (r: bool)
    ensures r <==> kind in ContainerKinds
  {
    match kind
    case "Document" => true
    case "BlockQuote" => true
    case "List" => true
    case "Item" => true
    case "Paragraph" => true
    case "Header" => true
    case "Emph" => true
    case "Strong" => true
    case "Link" => true
    case "Image" => true
    case _ => false
  }

  /** A freshly constructed node: the given kind and every link null. */
  function NewNode(kind: Kind): (r: NodeRec)
    ensures r.kind == kind
    ensures r.parent.None? && r.prev.None? && r.next.None?
    ensures r.firstChild.None? && r.lastChild.None?
  {
    NodeRec(kind, None, None, None, None, None)
  }

  /** `new Node(kind)`: a fresh, detached node joins the arena under an id
      it did not hold. */
  function AddNode(a: Arena, id: NodeId, kind: Kind): (r: Arena)
    requires id !in a
    ensures r.Keys == a.Keys + {id} && r[id] == NewNode(kind)
    ensures forall n | n in a :: r[n] == a[n]
  {
    a[id := NewNode(kind)]
  }

  // ---------------------------------------------------------------------
  // Closed arenas: every link names a node of the arena
  // ---------------------------------------------------------------------

  predicate LinkIn(a: Arena, l: Option<NodeId>) {
    l.None? || l.value in a
  }

  predicate RecIn(a: Arena, r: NodeRec) {
    LinkIn(a, r.parent) && LinkIn(a, r.firstChild) && LinkIn(a, r.lastChild)
    && LinkIn(a, r.prev) && LinkIn(a, r.next)
  }

  /** No link dangles: the arena counterpart of "a reference is an object". */
  predicate Closed(a: Arena) {
    forall n {:trigger a[n]} | n in a :: RecIn(a, a[n])
  }

  function ParentOf(a: Arena, n: NodeId): Option<NodeId> {
    if n in a then a[n].parent else None
  }

  // ---------------------------------------------------------------------
  // Single field writes (`x.f = v`); a write to a node the arena does not
  // hold cannot arise in a closed arena and leaves the arena as it is
  // ---------------------------------------------------------------------

  function SetParent(a: Arena, n: NodeId, v: Option<NodeId>): (r: Arena)
    ensures r.Keys == a.Keys
  {
    if n in a then a[n := a[n].(parent := v)] else a
  }

  function SetFirstChild(a: Arena, n: NodeId, v: Option<NodeId>): (r: Arena)
    ensures r.Keys == a.Keys
  {
    if n in a then a[n := a[n].(firstChild := v)] else a
  }

  function SetLastChild(a: Arena, n: NodeId, v: Option<NodeId>): (r: Arena)
    ensures r.Keys == a.Keys
  {
    if n in a then a[n := a[n].(lastChild := v)] else a
  }

  function SetPrev(a: Arena, n: NodeId, v: Option<NodeId>): (r: Arena)
    ensures r.Keys == a.Keys
  {
    if n in a then a[n := a[n].(prev := v)] else a
  }

  function SetNext(a: Arena, n: NodeId, v: Option<NodeId>): (r: Arena)
    ensures r.Keys == a.Keys
  {
    if n in a then a[n := a[n].(next := v)] else a
  }

  // ---------------------------------------------------------------------
  // Ancestry, the caller obligation of the inserting mutations
  // ---------------------------------------------------------------------

  /** The node reached from `n` by following `parent` `k` times, if any. */
  function Up(a: Arena, n: NodeId, k: nat): Option<NodeId>
    decreases k
  {
    if k == 0 then Some(n)
    else match Up(a, n, k - 1)
      case None => None
      case Some(m) => ParentOf(a, m)
  }

  /** `x` is a proper ancestor of `y`. */
  ghost predicate IsAncestor(a: Arena, x: NodeId, y: NodeId) {
    exists k: nat | 1 <= k :: Up(a, y, k) == Some(x)
  }

  // ---------------------------------------------------------------------
  // The five mutations
  // ---------------------------------------------------------------------

  /** Lines 123-127 of `unlink`: the predecessor (or, failing that, the
      parent's `firstChild`) now points past `n`. */
  function SpliceOutFront(a: Arena, n: NodeId): (r: Arena)
    requires n in a
    ensures r.Keys == a.Keys
  {
    var x := a[n];
    if x.prev.Some? then SetNext(a, x.prev.value, x.next)
    else if x.parent.Some? then SetFirstChild(a, x.parent.value, x.next)
    else a
  }

  /** Lines 128-132 of `unlink`: the successor (or, failing that, the
      parent's `lastChild`) now points before `n`. */
  function SpliceOutBack(a: Arena, n: NodeId): (r: Arena)
    requires n in a
    ensures r.Keys == a.Keys
  {
    var y := a[n];
    if y.next.Some? then SetPrev(a, y.next.value, y.prev)
    else if y.parent.Some? then SetLastChild(a, y.parent.value, y.prev)
    else a
  }

  /** Lines 133-135 of `unlink`: `n` forgets its parent and siblings. */
  function Detach(a: Arena, n: NodeId): (r: Arena)
    requires n in a
    ensures r.Keys == a.Keys
  {
    a[n := a[n].(parent := None, next := None, prev := None)]
  }

  /** `unlink`: splice `n` out of its sibling chain, patching the parent's
      first/last child when `n` sat at an end, then clear its own
      `parent`, `next` and `prev`. */
  function Unlink(a: Arena, n: NodeId): (r: Arena)
    requires n in a
    ensures r.Keys == a.Keys
    ensures r[n].parent.None? && r[n].prev.None? && r[n].next.None?
  {
    Detach(SpliceOutBack(SpliceOutFront(a, n), n), n)
  }

  /** Lines 99-106 of `appendChild`, run after `c` has been unlinked and
      given parent `p`. */
  function LinkLast(a: Arena, p: NodeId, c: NodeId): (r: Arena)
    requires p in a
    ensures r.Keys == a.Keys
  {
    if a[p].lastChild.Some? then
      var a3 := SetNext(a, a[p].lastChild.value, Some(c));
      var a4 := SetPrev(a3, c, a3[p].lastChild);
      SetLastChild(a4, p, Some(c))
    else
      SetLastChild(SetFirstChild(a, p, Some(c)), p, Some(c))
  }

  /** Unlinking `n` changes the parent of no other node. */
  lemma UnlinkKeepsParent(a: Arena, n: NodeId, m: NodeId)
    requires n in a && m in a && m != n
    ensures Unlink(a, n)[m].parent == a[m].parent
  {
  }

  /** `appendChild`: unlink `c`, make `p` its parent and link it after the
      last child of `p` (or as the only child). The caller must not make a
      node its own descendant. */
  function AppendChild(a: Arena, p: NodeId, c: NodeId): (r: Arena)
    requires p in a && c in a
    requires c != p && !IsAncestor(a, c, p)
    ensures r.Keys == a.Keys
    ensures r[c].parent == Some(p) && r[p].lastChild == Some(c)
  {
    LinkLast(SetParent(Unlink(a, c), c, Some(p)), p, c)
  }

  /** Lines 112-119 of `prependChild`, run after `c` has been unlinked and
      given parent `p`. */
  function LinkFirst(a: Arena, p: NodeId, c: NodeId): (r: Arena)
    requires p in a
    ensures r.Keys == a.Keys
  {
    if a[p].firstChild.Some? then
      var a3 := SetPrev(a, a[p].firstChild.value, Some(c));
      var a4 := SetNext(a3, c, a3[p].firstChild);
      SetFirstChild(a4, p, Some(c))
    else
      SetLastChild(SetFirstChild(a, p, Some(c)), p, Some(c))
  }

  /** `prependChild`: the mirror image of `appendChild`. */
  function PrependChild(a: Arena, p: NodeId, c: NodeId): (r: Arena)
    requires p in a && c in a
    requires c != p && !IsAncestor(a, c, p)
    ensures r.Keys == a.Keys
    ensures r[c].parent == Some(p) && r[p].firstChild == Some(c)
  {
    LinkFirst(SetParent(Unlink(a, c), c, Some(p)), p, c)
  }

  /** Lines 140-145 of `insertAfter`: `s` takes over the successor of `t`
      and becomes that successor. */
  function LinkAfter(a: Arena, t: NodeId, s: NodeId): (r: Arena)
    requires t in a && s in a
    ensures r.Keys == a.Keys
    ensures r[t].parent == a[t].parent
    ensures s != t ==> r[t].next == Some(s) && r[s].prev == Some(t)
  {
    var a2 := SetNext(a, s, a[t].next);
    var a3 := if a2[s].next.Some? then SetPrev(a2, a2[s].next.value, Some(s)) else a2;
    SetNext(SetPrev(a3, s, Some(t)), t, Some(s))
  }

  /** Lines 146-149 of `insertAfter` (`atEnd`) and 160-163 of
      `insertBefore`: `s` takes the parent of `t`, and becomes that
      parent's last (first) child when it has no successor (predecessor). */
  function AdoptParent(a: Arena, t: NodeId, s: NodeId, atEnd: bool): (r: Arena)
    requires t in a && s in a && a[t].parent.Some?
    ensures r.Keys == a.Keys && r[s].parent == a[t].parent
    ensures r[t].prev == a[t].prev && r[t].next == a[t].next
    ensures r[s].prev == a[s].prev && r[s].next == a[s].next
  {
    var a6 := SetParent(a, s, a[t].parent);
    var q := a6[s].parent.value;
    if atEnd then
      if a6[s].next.None? then SetLastChild(a6, q, Some(s)) else a6
    else
      if a6[s].prev.None? then SetFirstChild(a6, q, Some(s)) else a6
  }

  /** `insertAfter`: unlink `s` and splice it in right after `t`, under the
      parent of `t`; the parent's last child moves when `s` lands at the end.
      The source dereferences the parent unguarded, so `t` must have one;
      the caller must not make a node its own sibling or descendant. */
  function InsertAfter(a: Arena, t: NodeId, s: NodeId): (r: Arena)
    requires t in a && s in a
    requires a[t].parent.Some? && s != t && !IsAncestor(a, s, t)
    ensures r.Keys == a.Keys
    ensures r[t].next == Some(s) && r[s].prev == Some(t) && r[s].parent == a[t].parent
  {
    var a1 := Unlink(a, s);
    UnlinkKeepsParent(a, s, t);
    AdoptParent(LinkAfter(a1, t, s), t, s, true)
  }

  /** Lines 154-159 of `insertBefore`: `s` takes over the predecessor of
      `t` and becomes that predecessor. */
  function LinkBefore(a: Arena, t: NodeId, s: NodeId): (r: Arena)
    requires t in a && s in a
    ensures r.Keys == a.Keys
    ensures r[t].parent == a[t].parent
    ensures s != t ==> r[t].prev == Some(s) && r[s].next == Some(t)
  {
    var a2 := SetPrev(a, s, a[t].prev);
    var a3 := if a2[s].prev.Some? then SetNext(a2, a2[s].prev.value, Some(s)) else a2;
    SetPrev(SetNext(a3, s, Some(t)), t, Some(s))
  }

  /** `insertBefore`: the mirror image of `insertAfter`. */
  function InsertBefore(a: Arena, t: NodeId, s: NodeId): (r: Arena)
    requires t in a && s in a
    requires a[t].parent.Some? && s != t && !IsAncestor(a, s, t)
    ensures r.Keys == a.Keys
    ensures r[t].prev == Some(s) && r[s].next == Some(t) && r[s].parent == a[t].parent
  {
    var a1 := Unlink(a, s);
    UnlinkKeepsParent(a, s, t);
    AdoptParent(LinkBefore(a1, t, s), t, s, false)
  }

  // ---------------------------------------------------------------------
  // Facts that hold of every closed arena
  // ---------------------------------------------------------------------

  /** Unlinking a node that is already detached changes nothing. */
  lemma UnlinkDetachedIsNoop(a: Arena, n: NodeId)
    requires n in a
    requires a[n].parent.None? && a[n].prev.None? && a[n].next.None?
    ensures Unlink(a, n) == a
  {
    assert Unlink(a, n)[n] == a[n];
  }

  /** Unlinking twice is unlinking once. */
  lemma UnlinkIdempotent(a: Arena, n: NodeId)
    requires n in a
    ensures Unlink(Unlink(a, n), n) == Unlink(a, n)
  {
    UnlinkDetachedIsNoop(Unlink(a, n), n);
  }

  // ---------------------------------------------------------------------
  // The mutations rewire links and never change what a node is
  // ---------------------------------------------------------------------

  lemma UnlinkKindAt(a: Arena, n: NodeId, m: NodeId)
    requires n in a && m in a
    ensures Unlink(a, n)[m].kind == a[m].kind
  {
    var a1 := SpliceOutFront(a, n);
    assert a1[m].kind == a[m].kind;
    assert SpliceOutBack(a1, n)[m].kind == a1[m].kind;
  }

  lemma LinkLastKindAt(a: Arena, p: NodeId, c: NodeId, m: NodeId)
    requires p in a && m in a
    ensures LinkLast(a, p, c)[m].kind == a[m].kind
  {
    if a[p].lastChild.Some? {
      var a3 := SetNext(a, a[p].lastChild.value, Some(c));
      assert a3[m].kind == a[m].kind;
      var a4 := SetPrev(a3, c, a3[p].lastChild);
      assert a4[m].kind == a3[m].kind;
    }
  }

  lemma LinkFirstKindAt(a: Arena, p: NodeId, c: NodeId, m: NodeId)
    requires p in a && m in a
    ensures LinkFirst(a, p, c)[m].kind == a[m].kind
  {
    if a[p].firstChild.Some? {
      var a3 := SetPrev(a, a[p].firstChild.value, Some(c));
      assert a3[m].kind == a[m].kind;
      var a4 := SetNext(a3, c, a3[p].firstChild);
      assert a4[m].kind == a3[m].kind;
    }
  }

  lemma LinkAfterKindAt(a: Arena, t: NodeId, s: NodeId, m: NodeId)
    requires t in a && s in a && m in a
    ensures LinkAfter(a, t, s)[m].kind == a[m].kind
  {
    var a2 := SetNext(a, s, a[t].next);
    assert a2[m].kind == a[m].kind;
    var a3 := if a2[s].next.Some? then SetPrev(a2, a2[s].next.value, Some(s)) else a2;
    assert a3[m].kind == a2[m].kind;
    assert SetPrev(a3, s, Some(t))[m].kind == a3[m].kind;
  }

  lemma LinkBeforeKindAt(a: Arena, t: NodeId, s: NodeId, m: NodeId)
    requires t in a && s in a && m in a
    ensures LinkBefore(a, t, s)[m].kind == a[m].kind
  {
    var a2 := SetPrev(a, s, a[t].prev);
    assert a2[m].kind == a[m].kind;
    var a3 := if a2[s].prev.Some? then SetNext(a2, a2[s].prev.value, Some(s)) else a2;
    assert a3[m].kind == a2[m].kind;
    assert SetNext(a3, s, Some(t))[m].kind == a3[m].kind;
  }

  /** `unlink` changes the kind of no node. */
  lemma UnlinkKeepsKinds(a: Arena, n: NodeId)
    requires n in a
    ensures forall m | m in a :: Unlink(a, n)[m].kind == a[m].kind
  {
    forall m | m in a
      ensures Unlink(a, n)[m].kind == a[m].kind
    {
      UnlinkKindAt(a, n, m);
    }
  }

  /** `appendChild` changes the kind of no node. */
  lemma AppendChildKeepsKinds(a: Arena, p: NodeId, c: NodeId)
    requires p in a && c in a && c != p && !IsAncestor(a, c, p)
    ensures forall m | m in a :: AppendChild(a, p, c)[m].kind == a[m].kind
  {
    forall m | m in a
      ensures AppendChild(a, p, c)[m].kind == a[m].kind
    {
      var a1 := SetParent(Unlink(a, c), c, Some(p));
      UnlinkKindAt(a, c, m);
      LinkLastKindAt(a1, p, c, m);
    }
  }

  /** `prependChild` changes the kind of no node. */
  lemma PrependChildKeepsKinds(a: Arena, p: NodeId, c: NodeId)
    requires p in a && c in a && c != p && !IsAncestor(a, c, p)
    ensures forall m | m in a :: PrependChild(a, p, c)[m].kind == a[m].kind
  {
    forall m | m in a
      ensures PrependChild(a, p, c)[m].kind == a[m].kind
    {
      var a1 := SetParent(Unlink(a, c), c, Some(p));
      UnlinkKindAt(a, c, m);
      LinkFirstKindAt(a1, p, c, m);
    }
  }

  /** `insertAfter` changes the kind of no node. */
  lemma InsertAfterKeepsKinds(a: Arena, t: NodeId, s: NodeId)
    requires t in a && s in a && a[t].parent.Some? && s != t && !IsAncestor(a, s, t)
    ensures forall m | m in a :: InsertAfter(a, t, s)[m].kind == a[m].kind
  {
    forall m | m in a
      ensures InsertAfter(a, t, s)[m].kind == a[m].kind
    {
      var a1 := Unlink(a, s);
      UnlinkKindAt(a, s, m);
      UnlinkKeepsParent(a, s, t);
      LinkAfterKindAt(a1, t, s, m);
    }
  }

  /** `insertBefore` changes the kind of no node. */
  lemma InsertBeforeKeepsKinds(a: Arena, t: NodeId, s: NodeId)
    requires t in a && s in a && a[t].parent.Some? && s != t && !IsAncestor(a, s, t)
    ensures forall m | m in a :: InsertBefore(a, t, s)[m].kind == a[m].kind
  {
    forall m | m in a
      ensures InsertBefore(a, t, s)[m].kind == a[m].kind
    {
      var a1 := Unlink(a, s);
      UnlinkKindAt(a, s, m);
      UnlinkKeepsParent(a, s, t);
      LinkBeforeKindAt(a1, t, s, m);
    }
  }
}
