/** What a whole walk of js/lib/node.js reports: document order, with every
    container entered, then its children walked, then exited, and every
    other node reported once with its children skipped.

    The reference order is stated on an abstract `Tree`; `Represents` ties
    a tree to the links of an arena. Every valid arena holds, below any
    node, a tree that represents it (`TreeAt`). */
module Traversal {
  import opened Optional
  import opened Node
  import opened Links
  import opened Ancestry
  import opened Validity
  import opened Walking

  datatype Tree = Tree(id: NodeId, kind: Kind, children: seq<Tree>)

  function Ids(ts: seq<Tree>): (r: seq<NodeId>)
    ensures |r| == |ts| && forall i | 0 <= i < |ts| :: r[i] == ts[i].id
  {
    if ts == [] then [] else [ts[0].id] + Ids(ts[1..])
  }

  /** `t` is the subtree of `a` below `t.id`: same kinds, and the children
      of every node are chained in the arena in the order of the tree. */
  ghost predicate Represents(a: Arena, t: Tree)
    decreases t
  {
    && t.id in a && a[t.id].kind == t.kind
    && Chained(a, t.id, Ids(t.children))
    && forall i | 0 <= i < |t.children| :: Represents(a, t.children[i])
  }

  // ---------------------------------------------------------------------
  // The reference order
  // ---------------------------------------------------------------------

  /** The nodes the walk visits below and at the root of `t`: containers
      are counted with their children, other nodes alone. */
  function Containers(t: Tree): nat
    decreases t
  {
    if IsContainer(t.kind) then 1 + ForestContainers(t.children) else 0
  }

  function ForestContainers(ts: seq<Tree>): nat
    decreases ts
  {
    if ts == [] then 0 else Containers(ts[0]) + ForestContainers(ts[1..])
  }

  function Leaves(t: Tree): nat
    decreases t
  {
    if IsContainer(t.kind) then ForestLeaves(t.children) else 1
  }

  function ForestLeaves(ts: seq<Tree>): nat
    decreases ts
  {
    if ts == [] then 0 else Leaves(ts[0]) + ForestLeaves(ts[1..])
  }

  /** Document order: a container is entered, its children are walked in
      order, and it is exited; any other node is entered once and its
      children are not visited. Each container gives two events and every
      other visited node one. */
  function Events(t: Tree): (r: seq<Event>)
    ensures |r| == 2 * Containers(t) + Leaves(t)
    ensures r[0] == Event(true, t.id)
    ensures IsContainer(t.kind) ==> r[|r| - 1] == Event(false, t.id)
    decreases t
  {
    if IsContainer(t.kind) then
      [Event(true, t.id)] + ForestEvents(t.children) + [Event(false, t.id)]
    else
      [Event(true, t.id)]
  }

  function ForestEvents(ts: seq<Tree>): (r: seq<Event>)
    ensures |r| == 2 * ForestContainers(ts) + ForestLeaves(ts)
    decreases ts
  {
    if ts == [] then [] else Events(ts[0]) + ForestEvents(ts[1..])
  }

  // ---------------------------------------------------------------------
  // The walk follows the reference order
  // ---------------------------------------------------------------------

  /** Where the walker goes once it is done with `n`: on to the next
      sibling, entering it, or up to the parent, exiting it. */
  function After(a: Arena, n: NodeId, root: NodeId): Walker
    requires n in a
  {
    if a[n].next.None? then Walker(a[n].parent, root, false)
    else Walker(a[n].next, root, true)
  }

  /** `ts` is a final stretch of the children of `p`: each has parent `p`
      and the next of each is the one after it, the last having none. */
  ghost predicate Rest(a: Arena, p: NodeId, ts: seq<Tree>) {
    forall i | 0 <= i < |ts| :: FollowedBy(a, p, ts, i)
  }

  ghost predicate FollowedBy(a: Arena, p: NodeId, ts: seq<Tree>, i: nat)
    requires i < |ts|
  {
    && ts[i].id in a && a[ts[i].id].parent == Some(p)
    && a[ts[i].id].next == (if i + 1 < |ts| then Some(ts[i + 1].id) else None)
  }

  lemma RestOfChain(a: Arena, t: Tree)
    requires Represents(a, t)
    ensures Rest(a, t.id, t.children)
  {
    var s := Ids(t.children);
    assert Chained(a, t.id, s);
    forall i | 0 <= i < |t.children|
      ensures FollowedBy(a, t.id, t.children, i)
    {
      assert SiblingAt(a, t.id, s, i);
    }
  }

  lemma RestAt(a: Arena, p: NodeId, ts: seq<Tree>, j: nat)
    requires Rest(a, p, ts) && j < |ts|
    ensures ts[j].id in a && a[ts[j].id].parent == Some(p)
    ensures a[ts[j].id].next == (if j + 1 < |ts| then Some(ts[j + 1].id) else None)
  {
    assert FollowedBy(a, p, ts, j);
  }

  lemma RestTail(a: Arena, p: NodeId, ts: seq<Tree>)
    requires Rest(a, p, ts) && ts != []
    ensures Rest(a, p, ts[1..])
  {
    var us := ts[1..];
    forall i | 0 <= i < |us|
      ensures FollowedBy(a, p, us, i)
    {
      RestAt(a, p, ts, i + 1);
      assert us[i] == ts[i + 1];
      assert i + 1 < |us| ==> us[i + 1] == ts[i + 2];
    }
  }

  /** Two runs, one after the other, make one run. */
  lemma RunsCompose(a: Arena, w: Walker, e1: seq<Event>, w1: Walker, e2: seq<Event>, w2: Walker)
    requires Closed(a) && WalkerIn(a, w)
    requires Steps(a, w, |e1|) == Run(e1, w1) && Steps(a, w1, |e2|) == Run(e2, w2)
    ensures Steps(a, w, |e1 + e2|) == Run(e1 + e2, w2)
  {
    StepsAppend(a, w, |e1|, |e2|);
  }

  /** Entering a container moves to its first child, or to exiting it when
      it has none. */
  lemma EnterContainer(a: Arena, t: Tree, root: NodeId)
    requires Closed(a) && Represents(a, t) && IsContainer(t.kind)
    ensures Steps(a, Walker(Some(t.id), root, true), 1)
         == Run([Event(true, t.id)],
                if t.children == [] then Walker(Some(t.id), root, false)
                else Walker(Some(t.children[0].id), root, true))
  {
    if t.children != [] {
      assert SiblingAt(a, t.id, Ids(t.children), 0);
    }
  }

  /** Exiting a node, or entering one that is not a container, moves on to
      where the walk goes after it. */
  lemma LeaveNode(a: Arena, n: NodeId, root: NodeId, entering: bool)
    requires Closed(a) && n in a && (entering ==> !IsContainer(a[n].kind))
    ensures Steps(a, Walker(Some(n), root, entering), 1)
         == Run([Event(entering, n)], After(a, n, root))
  {
  }

  /** Walking `t` from entering its root reports `Events(t)` and leaves the
      walker where it goes after `t`. */
  lemma {:induction false} WalkTree(a: Arena, t: Tree, root: NodeId)
    requires Closed(a) && Represents(a, t)
    ensures Steps(a, Walker(Some(t.id), root, true), |Events(t)|)
         == Run(Events(t), After(a, t.id, root))
    decreases t, 1
  {
    var w := Walker(Some(t.id), root, true);
    if IsContainer(t.kind) {
      var f := ForestEvents(t.children);
      var exiting := Walker(Some(t.id), root, false);
      var enter, exit := [Event(true, t.id)], [Event(false, t.id)];
      EnterContainer(a, t, root);
      if t.children == [] {
        assert enter + f == enter;
      } else {
        RestOfChain(a, t);
        WalkForest(a, t.id, t.children, root);
        RunsCompose(a, w, enter, Walker(Some(t.children[0].id), root, true), f, exiting);
      }
      LeaveNode(a, t.id, root, false);
      RunsCompose(a, w, enter + f, exiting, exit, After(a, t.id, root));
    } else {
      LeaveNode(a, t.id, root, true);
    }
  }

  /** Walking a final stretch `ts` of the children of `p` reports their
      events in order and then exits `p`. */
  lemma {:induction false} WalkForest(a: Arena, p: NodeId, ts: seq<Tree>, root: NodeId)
    requires Closed(a) && ts != [] && ts[0].id in a && Rest(a, p, ts)
    requires forall i | 0 <= i < |ts| :: Represents(a, ts[i])
    ensures Steps(a, Walker(Some(ts[0].id), root, true), |ForestEvents(ts)|)
         == Run(ForestEvents(ts), Walker(Some(p), root, false))
    decreases ts, 0
  {
    var w := Walker(Some(ts[0].id), root, true);
    var e, rest := Events(ts[0]), ForestEvents(ts[1..]);
    assert ForestEvents(ts) == e + rest;
    WalkTree(a, ts[0], root);
    RestAt(a, p, ts, 0);
    if |ts| == 1 {
      assert rest == [] && e + rest == e;
      assert a[ts[0].id].next == None;
    } else {
      assert a[ts[0].id].next == Some(ts[1].id);
      RestTail(a, p, ts);
      WalkForest(a, p, ts[1..], root);
      RunsCompose(a, w, e, Walker(Some(ts[1].id), root, true), rest, Walker(Some(p), root, false));
    }
  }

  // ---------------------------------------------------------------------
  // Every valid arena holds a tree below each node
  // ---------------------------------------------------------------------

  /** The children of `p` in `kids`, all ranked below `p`. */
  ghost predicate Below(a: Arena, rank: Rank, p: NodeId, s: seq<NodeId>)
    requires a.Keys <= rank.Keys && p in rank
  {
    forall i | 0 <= i < |s| :: s[i] in a && rank[s[i]] < rank[p]
  }

  lemma ChildrenBelow(a: Arena, kids: Kids, rank: Rank, p: NodeId)
    requires LinkedBy(a, kids) && RankedBy(a, rank) && p in a
    ensures Below(a, rank, p, kids[p])
  {
    assert Chained(a, p, kids[p]);
    forall i | 0 <= i < |kids[p]|
      ensures kids[p][i] in a && rank[kids[p][i]] < rank[p]
    {
      assert SiblingAt(a, p, kids[p], i);
      assert ParentRanked(a, rank, kids[p][i]);
    }
  }

  ghost function BuildTree(a: Arena, kids: Kids, rank: Rank, n: NodeId): (t: Tree)
    requires LinkedBy(a, kids) && RankedBy(a, rank) && n in a
    ensures t.id == n && t.kind == a[n].kind && Ids(t.children) == kids[n]
    decreases rank[n], 1
  {
    ChildrenBelow(a, kids, rank, n);
    Tree(n, a[n].kind, BuildForest(a, kids, rank, n, kids[n]))
  }

  ghost function BuildForest(a: Arena, kids: Kids, rank: Rank, p: NodeId, s: seq<NodeId>): (ts: seq<Tree>)
    requires LinkedBy(a, kids) && RankedBy(a, rank) && p in a && Below(a, rank, p, s)
    ensures Ids(ts) == s
    ensures forall i | 0 <= i < |ts| :: ts[i] == BuildTree(a, kids, rank, s[i])
    decreases rank[p], 0, |s|
  {
    if s == [] then []
    else
      assert Below(a, rank, p, s[1..]) by {
        forall i | 0 <= i < |s| - 1
          ensures s[1..][i] in a && rank[s[1..][i]] < rank[p]
        {
          assert s[1..][i] == s[i + 1];
        }
      }
      [BuildTree(a, kids, rank, s[0])] + BuildForest(a, kids, rank, p, s[1..])
  }

  lemma {:induction false} BuildRepresents(a: Arena, kids: Kids, rank: Rank, n: NodeId)
    requires LinkedBy(a, kids) && RankedBy(a, rank) && n in a
    ensures Represents(a, BuildTree(a, kids, rank, n))
    decreases rank[n]
  {
    var t := BuildTree(a, kids, rank, n);
    assert Chained(a, n, kids[n]);
    ChildrenBelow(a, kids, rank, n);
    forall i | 0 <= i < |t.children|
      ensures Represents(a, t.children[i])
    {
      BuildRepresents(a, kids, rank, kids[n][i]);
    }
  }

  /** Below every node of a valid arena there is a tree representing it. */
  lemma HasTree(a: Arena, n: NodeId)
    requires Valid(a) && n in a
    ensures exists t: Tree :: t.id == n && Represents(a, t)
  {
    var kids :| LinkedBy(a, kids);
    var rank := AcyclicRanked(a);
    BuildRepresents(a, kids, rank, n);
  }

  /** The tree below `n` in a valid arena. */
  ghost function TreeAt(a: Arena, n: NodeId): (t: Tree)
    requires Valid(a) && n in a
    ensures t.id == n && Represents(a, t)
  {
    HasTree(a, n);
    var t: Tree :| t.id == n && Represents(a, t);
    t
  }

  /** `node.walker()` on any node of a valid arena: the first
      `|Events(TreeAt(a, n))|` calls of `next()` report the subtree of `n`
      in document order; the walker then goes on past `n`, to its next
      sibling or its parent, since nothing stops it at `n`. */
  lemma WalkSubtree(a: Arena, n: NodeId)
    requires Valid(a) && n in a
    ensures var t := TreeAt(a, n);
      Steps(a, WalkerOf(n), |Events(t)|) == Run(Events(t), After(a, n, n))
  {
    WalkTree(a, TreeAt(a, n), n);
  }

  /** Walking a whole document from its root (a node without parent)
      reports every event of its tree in document order and then `null`:
      `2 * Containers + Leaves` events in all. */
  lemma WalkDocument(a: Arena, root: NodeId)
    requires Valid(a) && root in a && a[root].parent.None?
    ensures var t := TreeAt(a, root);
      && |Events(t)| == 2 * Containers(t) + Leaves(t)
      && Steps(a, WalkerOf(root), |Events(t)|) == Run(Events(t), Walker(None, root, false))
      && Next(a, Walker(None, root, false)).event.None?
  {
    var kids :| LinkedBy(a, kids);
    assert Placed(a, kids, root);
    var t := TreeAt(a, root);
    WalkTree(a, t, root);
    assert After(a, root, root) == Walker(None, root, false);
  }
}
