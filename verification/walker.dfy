/** `NodeWalker` of js/lib/node.js: a cursor that visits a tree in document
    order, reporting every container twice (on entering and on exiting it)
    and every other node once.

    A walker holds the current node (`None` once the walk is over), the root
    it was made for, and whether the current node is being entered. `Next`
    is one call of `next()`: it reports the current position and moves the
    cursor, reading only the links of the current node. */
module Walking {
  import opened Optional
  import opened Node

  datatype Event = Event(entering: bool, node: NodeId)

  /** The state of a walker. `root` is recorded but never read, as in the
      source: a walk does not stop at the boundary of the tree it started
      in. */
  datatype Walker = Walker(current: Option<NodeId>, root: NodeId, entering: bool)

  /** What one call of `next()` returns (`None` for `null`) and the walker
      after it. */
  datatype Step = Step(event: Option<Event>, walker: Walker)

  /** The cursor of `w` is a node of `a`, or no node at all. */
  predicate WalkerIn(a: Arena, w: Walker) {
    LinkIn(a, w.current)
  }

  /** `new NodeWalker(root)`: the walk starts by entering the root. */
  function NodeWalker(root: NodeId): (w: Walker)
    ensures w.current == Some(root) && w.entering && w.root == root
  {
    Walker(Some(root), root, true)
  }

  /** `node.walker()`: a walker rooted at `node`. */
  function WalkerOf(n: NodeId): (w: Walker)
    ensures w.current == Some(n) && w.entering && w.root == n
  {
    NodeWalker(n)
  }

  /** `resumeAt(node, entering)`: move the cursor; anything but the boolean
      `true` (`Some(true)` here) resumes in the exiting state. */
  function ResumeAt(w: Walker, node: Option<NodeId>, entering: Option<bool>): (r: Walker)
    ensures r.current == node && r.root == w.root
    ensures r.entering <==> entering == Some(true)
  {
    w.(current := node, entering := entering == Some(true))
  }

  /** `next()`. Entering a container moves to its first child, or, when it
      has none, to exiting it; otherwise the walk moves to the next sibling
      (entering it) or, when there is none, to the parent (exiting it). */
  function Next(a: Arena, w: Walker): (r: Step)
    requires Closed(a) && WalkerIn(a, w)
    ensures r.event.None? <==> w.current.None?
    ensures r.event.Some? ==> r.event.value == Event(w.entering, w.current.value)
    ensures w.current.None? ==> r.walker == w
    ensures WalkerIn(a, r.walker) && r.walker.root == w.root
  {
    match w.current
    case None => Step(None, w)
    case Some(cur) =>
      assert RecIn(a, a[cur]);
      var x := a[cur];
      var w' :=
        if w.entering && IsContainer(x.kind) then
          if x.firstChild.Some? then w.(current := x.firstChild, entering := true)
          else w.(entering := false)
        else if x.next.None? then w.(current := x.parent, entering := false)
        else w.(current := x.next, entering := true);
      Step(Some(Event(w.entering, cur)), w')
  }

  /** Events of a run of calls of `next()`, and the walker after them. */
  datatype Run = Run(events: seq<Event>, walker: Walker)

  /** Up to `k` calls of `next()`, stopping at the first `null`. */
  function Steps(a: Arena, w: Walker, k: nat): (r: Run)
    requires Closed(a) && WalkerIn(a, w)
    ensures |r.events| <= k && WalkerIn(a, r.walker) && r.walker.root == w.root
    ensures |r.events| < k ==> r.walker.current.None?
    decreases k
  {
    if k == 0 then Run([], w)
    else
      var s := Next(a, w);
      if s.event.None? then Run([], w)
      else
        var rest := Steps(a, s.walker, k - 1);
        Run([s.event.value] + rest.events, rest.walker)
  }

  /** A run of `m` events followed by `n` more calls is a run of `m + n`
      calls. */
  lemma {:induction false} StepsAppend(a: Arena, w: Walker, m: nat, n: nat)
    requires Closed(a) && WalkerIn(a, w) && |Steps(a, w, m).events| == m
    ensures var r1 := Steps(a, w, m);
      var r2 := Steps(a, r1.walker, n);
      Steps(a, w, m + n) == Run(r1.events + r2.events, r2.walker)
    decreases m
  {
    if m > 0 {
      var s := Next(a, w);
      StepsAppend(a, s.walker, m - 1, n);
      assert [s.event.value] + Steps(a, s.walker, m - 1).events + Steps(a, Steps(a, w, m).walker, n).events
          == [s.event.value] + (Steps(a, s.walker, m - 1).events + Steps(a, Steps(a, w, m).walker, n).events);
    }
  }

  /** A finished walk stays finished. */
  lemma StepsFinished(a: Arena, w: Walker, k: nat)
    requires Closed(a) && WalkerIn(a, w) && w.current.None?
    ensures Steps(a, w, k) == Run([], w)
  {
  }

  /** The first call of `next()` on a fresh walker enters its root. */
  lemma FirstEventEntersRoot(a: Arena, root: NodeId)
    requires Closed(a) && root in a
    ensures Next(a, NodeWalker(root)).event == Some(Event(true, root))
  {
  }

  /** After `resumeAt(node, entering)`, `next()` reports exactly that
      position; it reports `null` when `node` is `null`. */
  lemma ResumeThenNext(a: Arena, w: Walker, node: Option<NodeId>, entering: Option<bool>)
    requires Closed(a) && LinkIn(a, node)
    ensures var s := Next(a, ResumeAt(w, node, entering));
      match node
      case None => s.event.None?
      case Some(n) => s.event == Some(Event(entering == Some(true), n))
  {
  }

  /** Entering a container without children is followed at once by exiting
      it. */
  lemma EmptyContainerExits(a: Arena, w: Walker, n: NodeId)
    requires Closed(a) && n in a && IsContainer(a[n].kind) && a[n].firstChild.None?
    requires w.current == Some(n) && w.entering
    ensures Steps(a, w, 2).events == [Event(true, n), Event(false, n)]
  {
  }

  /** A node that is not a container is reported once, entering, and its
      children are skipped: the walk moves on to its next sibling or back
      up to its parent. */
  lemma LeafSkipsChildren(a: Arena, w: Walker, n: NodeId)
    requires Closed(a) && n in a && !IsContainer(a[n].kind)
    requires w.current == Some(n) && w.entering
    ensures var s := Next(a, w);
      && s.event == Some(Event(true, n))
      && s.walker.current == (if a[n].next.None? then a[n].parent else a[n].next)
      && s.walker.entering == a[n].next.Some?
  {
  }
}
