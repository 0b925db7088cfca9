# commonmark.js node tree, in Dafny

This project models the AST node of the commonmark.js Markdown parser,
`js/lib/node.js`, and proves properties about it. The model has two parts.

- **The node structure.** Each node has a kind tag (`_type`) and five links:
  `parent`, `firstChild`, `lastChild`, `prev` and `next`. Five in-place
  mutations rewire these links: `appendChild`, `prependChild`, `unlink`,
  `insertAfter` and `insertBefore`.
- **The `NodeWalker`.** This is a resumable cursor that walks a tree in
  document order. It reports each container twice, once entering and once
  exiting, and reports every other node once. The `isContainer` switch
  decides which kinds are containers.

The JavaScript objects become an **arena**, `map<NodeId, NodeRec>`. In a
`NodeRec`, each link is an `Option<NodeId>`, and `None` stands for `null`.
Each mutation is a pure arena-to-arena function. It performs the same field
writes as the JavaScript method, in the same order, so the nodes involved
alias each other exactly as they do in the source. The walker is a pure step
function on a `(current, root, entering)` cursor.

Modules, following the structure of the source:

- `Optional` (optional.dfy): the `Option` type.
- `Node` (node.dfy): the node record, `isContainer`, the constructor, the
  field writes, the five mutations (which keep every node's kind), and the
  ancestor relation.
- `Links` (links.dfy): well-linkedness. A ghost map `kids` gives each node's
  children in order, and the links must spell out exactly those sequences.
  Each mutation keeps the arena well linked, and the proofs compute the new
  children map.
- `Order` (order.dfy): each mutation's effect on the order of children.
- `Effects` (effects.dfy): each mutation's effect on individual link fields.
- `Ancestry` (ancestry.dfy): no node is its own ancestor. The proofs work
  through a rank that increases strictly from child to parent.
- `Validity` (valid.dfy): `Valid` means closed, well linked and acyclic. Each
  mutation keeps `Valid` under the source's caller preconditions.
- `Walking` (walker.dfy): `NodeWalker`, `next`, `resumeAt` and `walker`.
- `Traversal` (traversal.dfy): the reference document order on an abstract
  `Tree`, and the proof that the walker produces it on a valid arena.
- `Example` (example.dfy): what the usage loop of the closing comment
  yields on a small document, and the effect of an `unlink` on it.

## Model

| member | source | states |
|---|---|---|
| `Node.IsContainer` | js/lib/node.js:3-19 | true exactly for the ten kinds Document, BlockQuote, List, Item, Paragraph, Header, Emph, Strong, Link and Image; false for every other string |
| `Node.NewNode` | js/lib/node.js:65-71 | a new node has the given kind and all five links null |
| `Node.AddNode` | js/lib/node.js:65-71 | constructing a node adds exactly one fresh, detached node and leaves every existing node unchanged |
| `Validity.AddNodeKeepsValid` | js/lib/node.js:65-71 | adding a new node to a valid arena keeps it valid |
| `Links.LinkedUnique` | js/lib/node.js:67-71 | the five link fields determine the children of every node: at most one children map explains them |
| `Node.Unlink` | js/lib/node.js:122-136 | after `unlink` the node's `parent`, `prev` and `next` are all null, and no node is added or removed |
| `Effects.UnlinkSplices` | js/lib/node.js:122-136 | on a well-linked arena every node ends as `UnlinkedNode` describes: `prev.next` becomes the old `next`, `next.prev` becomes the old `prev`, the parent's `firstChild` (`lastChild`) moves past the node when the node was first (last), the node keeps its own children, and nothing else changes |
| `Node.UnlinkDetachedIsNoop` | js/lib/node.js:122-136 | unlinking a node with no parent and no siblings changes nothing |
| `Node.UnlinkIdempotent` | js/lib/node.js:122-136 | unlinking twice gives the same result as unlinking once |
| `Order.UnlinkOrder` | js/lib/node.js:122-136 | the node leaves its parent's children, and every sequence of children keeps the order of its remaining members |
| `Links.UnlinkKeepsLinks` | js/lib/node.js:122-136 | the arena stays well linked, and the children map is the old one with the node removed from its parent's sequence |
| `Validity.UnlinkKeepsValid` | js/lib/node.js:122-136 | `unlink` keeps a valid arena valid |
| `Node.AppendChild` | js/lib/node.js:96-107 | afterwards the child's parent is `this` and `this.lastChild` is the child |
| `Effects.AppendChildLinks` | js/lib/node.js:96-107 | the child has no `next`; its `prev` is the previous last child, counted after the child was unlinked, and that node's `next` is the child; the child is also `firstChild` exactly when `this` had no children |
| `Order.AppendChildOrder` | js/lib/node.js:96-107 | the children of `this` become the old children, without the child, followed by the child; every other sequence only loses the child |
| `Links.AppendChildKeepsLinks` | js/lib/node.js:96-107 | the arena stays well linked, and the child is moved to the end of its new parent's children |
| `Validity.AppendChildKeepsValid` | js/lib/node.js:96-107 | keeps a valid arena valid when the child is neither `this` nor an ancestor of `this` |
| `Node.PrependChild` | js/lib/node.js:109-120 | afterwards the child's parent is `this` and `this.firstChild` is the child |
| `Effects.PrependChildLinks` | js/lib/node.js:109-120 | mirror of appendChild: the child has no `prev`; its `next` is the previous first child, which points back at it; the child is also `lastChild` exactly when `this` had no children |
| `Order.PrependChildOrder` | js/lib/node.js:109-120 | the children of `this` become the child followed by the old children without it; every other sequence only loses the child |
| `Links.PrependChildKeepsLinks` | js/lib/node.js:109-120 | the arena stays well linked, and the child is moved to the front of its new parent's children |
| `Validity.PrependChildKeepsValid` | js/lib/node.js:109-120 | keeps a valid arena valid when the child is neither `this` nor an ancestor of `this` |
| `Node.InsertAfter` | js/lib/node.js:138-150 | requires `this` to have a parent; afterwards the sibling is `this.next`, `this` is the sibling's `prev`, and the sibling shares `this.parent` |
| `Effects.InsertAfterLinks` | js/lib/node.js:138-150 | the sibling takes over `this`'s old successor, which now points back at it; the parent's `lastChild` becomes the sibling exactly when `this` was last, and `firstChild` is unchanged |
| `Order.InsertAfterOrder` | js/lib/node.js:138-150 | the sibling lands right after `this` among the children of `this.parent`; every other child keeps its order, and every other sequence only loses the sibling |
| `Links.InsertAfterKeepsLinks` | js/lib/node.js:138-150 | the arena stays well linked, and the children map records the sibling's new place |
| `Validity.InsertAfterKeepsValid` | js/lib/node.js:138-150 | keeps a valid arena valid when the sibling is neither `this` nor an ancestor of `this` |
| `Node.InsertBefore` | js/lib/node.js:152-164 | requires `this` to have a parent; afterwards the sibling is `this.prev`, `this` is the sibling's `next`, and the sibling shares `this.parent` |
| `Effects.InsertBeforeLinks` | js/lib/node.js:152-164 | mirror of insertAfter: the sibling takes over `this`'s old predecessor; the parent's `firstChild` becomes the sibling exactly when `this` was first, and `lastChild` is unchanged |
| `Order.InsertBeforeOrder` | js/lib/node.js:152-164 | the sibling lands right before `this` among the children of `this.parent`; every other child keeps its order |
| `Links.InsertBeforeKeepsLinks` | js/lib/node.js:152-164 | the arena stays well linked, and the children map records the sibling's new place |
| `Validity.InsertBeforeKeepsValid` | js/lib/node.js:152-164 | keeps a valid arena valid when the sibling is neither `this` nor an ancestor of `this` |
| `Node.UnlinkKeepsKinds` | js/lib/node.js:122-136 | `unlink` changes the kind of no node, so the container/leaf classification the walker reads is unchanged |
| `Node.AppendChildKeepsKinds` | js/lib/node.js:96-107 | `appendChild` changes the kind of no node, so the container/leaf classification the walker reads is unchanged |
| `Node.PrependChildKeepsKinds` | js/lib/node.js:109-120 | `prependChild` changes the kind of no node, so the container/leaf classification the walker reads is unchanged |
| `Node.InsertAfterKeepsKinds` | js/lib/node.js:138-150 | `insertAfter` changes the kind of no node, so the container/leaf classification the walker reads is unchanged |
| `Node.InsertBeforeKeepsKinds` | js/lib/node.js:152-164 | `insertBefore` changes the kind of no node, so the container/leaf classification the walker reads is unchanged |
| `Walking.ResumeAt` | js/lib/node.js:21-24 | sets the cursor to the given node; the walker enters it exactly when the argument is the boolean `true` |
| `Walking.ResumeThenNext` | js/lib/node.js:21-24 | after `resumeAt(n, e)`, the next `next()` returns `{entering: e === true, node: n}`, or `null` when `n` is null |
| `Walking.Next` | js/lib/node.js:26-54 | returns null exactly when the cursor is null, and then leaves the walker unchanged; otherwise it reports the cursor position before the move; the cursor stays inside a closed arena |
| `Walking.StepsFinished` | js/lib/node.js:30-32 | once the cursor is null, every further call of `next()` returns null |
| `Walking.EmptyContainerExits` | js/lib/node.js:36-43 | entering a container that has no children is followed immediately by exiting it |
| `Walking.LeafSkipsChildren` | js/lib/node.js:34-52 | a non-container node is reported once, entering, and the walk moves to its next sibling (entering it) or to its parent (exiting it), never to its children |
| `Walking.NodeWalker` | js/lib/node.js:57-63 | a new walker is at `(root, entering = true)` |
| `Walking.FirstEventEntersRoot` | js/lib/node.js:57-63 | the first `next()` of a new walker enters its root |
| `Walking.WalkerOf` | js/lib/node.js:166-169 | `node.walker()` is a new walker rooted at the node |
| `Walking.Steps` | js/lib/node.js:174-182 | the usage loop `while (event = walker.next())`, cut off after `k` calls: at most `k` events, and fewer only when `next()` has returned null |
| `Traversal.Events` | js/lib/node.js:34-54 | the reference document order has `2 * containers + leaves` events; it starts by entering the root and, for a container, ends by exiting it |
| `Traversal.WalkTree` | js/lib/node.js:26-54 | for any tree the arena represents, walking from entering its root reports exactly `Events` of that tree and then leaves the cursor where the walk goes after it |
| `Traversal.WalkSubtree` | js/lib/node.js:166-169 | `node.walker()` reports the node's subtree in document order, then moves past it to its next sibling or parent, because nothing stops the walk at `root` |
| `Traversal.WalkDocument` | js/lib/node.js:26-54 | walking from a parentless root of a valid arena gives exactly `Events` of its tree: `2 * containers + leaves` events in document order, and then `null` |
| `Example.DocTreeEvents` | js/lib/node.js:174-182 | on Document > Paragraph > [Text, Emph > Text] the reference order is the eight events the usage loop prints: enter 0, 1, 2, 3, 4, exit 3, 1, 0 |
| `Example.DocWalk` | js/lib/node.js:174-182 | running the usage loop on that document reports exactly those eight events and then `null` |
| `Example.DocUnlinkEmph` | js/lib/node.js:122-136 | unlinking the Emph leaves the paragraph with the Text as first and last child and no sibling links, and the Emph detached with its own child |

## Left out

- Payload fields (`sourcepos`, `literal`, `string_content`, list and fence
  data, `level` and the rest) are left out. External builders write them, and
  nothing in this file reads them. Only the kind tag and the links are
  modelled.
- The `type()` accessor and `module.exports` are left out. They contain no
  logic. The usage loop in the closing comment is `Walking.Steps`, and the
  `Example` module states its result on a small document.
- `src/parser.h` is not part of this model. It is a bare C struct declaration
  with no behaviour.
- Object identity and allocation are left out. A node is an id in an arena, and
  `new Node` is `Node.AddNode` with a caller-chosen fresh id.
- The caller preconditions become `requires` clauses instead of modelled
  outcomes:
  - `insertAfter` and `insertBefore` on a node with no parent;
  - moving a node relative to itself;
  - moving a node into its own subtree.

  The five mutations are total on their arena otherwise. A field write
  through an id outside the arena does nothing, which cannot happen in a
  closed arena.
- Walker invalidation under mutation is left out. The source is
  single-threaded, and `resumeAt` is the only way to reposition a walker.
- `resumeAt`'s `entering` argument is an `Option<bool>`. `Some(true)` is the
  boolean `true`; anything else, including an omitted argument, is `None` or
  `Some(false)`. JavaScript values of other types are not modelled.
- Traversal.WalkDocument: the walk is stated on the tree that a valid arena
  holds below the root (`TreeAt`). The statement says that the first
  `|Events|` calls report those events and that the next call returns
  `null`. It is not stated as a single run of `|Events| + 1` calls.
- The walker has no root-boundary check. The `root` field
  (js/lib/node.js:59) is recorded but never read by `next`, so a walk stops
  only because a document root has no parent and no next sibling.
  `WalkSubtree` shows that a walker started below the top continues past its
  root.
