/** The walk of the usage comment at the end of js/lib/node.js on a small
    document: a paragraph holding a text and an emphasis around a second
    text. */
module Example {
  import opened Optional
  import opened Node
  import opened Walking
  import opened Traversal

  /** Document(0) > Paragraph(1) > [Text(2), Emph(3) > [Text(4)]] */
  function Doc(): (a: Arena)
    ensures Closed(a) && a.Keys == {0, 1, 2, 3, 4}
  {
    map[0 := NodeRec("Document", None, Some(1), Some(1), None, None),
        1 := NodeRec("Paragraph", Some(0), Some(2), Some(3), None, None),
        2 := NodeRec("Text", Some(1), None, None, None, Some(3)),
        3 := NodeRec("Emph", Some(1), Some(4), Some(4), Some(2), None),
        4 := NodeRec("Text", Some(3), None, None, None, None)]
  }

  function DocTree(): Tree {
    Tree(0, "Document", [
      Tree(1, "Paragraph", [
        Tree(2, "Text", []),
        Tree(3, "Emph", [Tree(4, "Text", [])])])])
  }

  /** The events the usage loop prints, in order. */
  function DocEvents(): seq<Event> {
    [Event(true, 0), Event(true, 1), Event(true, 2), Event(true, 3),
     Event(true, 4), Event(false, 3), Event(false, 1), Event(false, 0)]
  }

  /** The emphasis subtree: enter, its text, exit. */
  lemma EmphEvents()
    ensures Events(DocTree().children[0].children[1])
         == [Event(true, 3), Event(true, 4), Event(false, 3)]
  {
    var t4 := Tree(4, "Text", []);
    assert ForestEvents([t4]) == Events(t4) + ForestEvents([]);
  }

  /** The paragraph subtree: the middle six events of the listing. */
  lemma ParagraphEvents()
    ensures Events(DocTree().children[0]) == DocEvents()[1..7]
  {
    var t1 := DocTree().children[0];
    var t2, t3 := t1.children[0], t1.children[1];
    EmphEvents();
    assert t1.children[1..] == [t3] && [t3][1..] == [];
    assert ForestEvents([t3]) == Events(t3) + ForestEvents([]);
    assert ForestEvents(t1.children) == Events(t2) + ForestEvents([t3]);
  }

  /** The reference order of the example tree is the expected listing:
      three containers and two texts give `2 * 3 + 2 == 8` events. */
  lemma DocTreeEvents()
    ensures Events(DocTree()) == DocEvents()
    ensures Containers(DocTree()) == 3 && Leaves(DocTree()) == 2
  {
    var t1 := DocTree().children[0];
    ParagraphEvents();
    assert ForestEvents([t1]) == Events(t1) + ForestEvents([]);
  }

  /** The usage loop, on the example, yields the eight events and then
      `null`. */
  lemma DocWalk()
    ensures Steps(Doc(), WalkerOf(0), 9) == Run(DocEvents(), Walker(None, 0, false))
  {
    var a := Doc();
    var w0 := WalkerOf(0);
    var w1 := Walker(Some(1), 0, true);
    var w2 := Walker(Some(2), 0, true);
    var w3 := Walker(Some(3), 0, true);
    var w4 := Walker(Some(4), 0, true);
    var w5 := Walker(Some(3), 0, false);
    var w6 := Walker(Some(1), 0, false);
    var w7 := Walker(Some(0), 0, false);
    var w8 := Walker(None, 0, false);
    assert Steps(a, w8, 1) == Run([], w8);
    assert Steps(a, w7, 2) == Run([Event(false, 0)], w8);
    assert Steps(a, w6, 3) == Run([Event(false, 1), Event(false, 0)], w8);
    assert Steps(a, w5, 4) == Run(DocEvents()[5..], w8);
    assert Steps(a, w4, 5) == Run(DocEvents()[4..], w8);
    assert Steps(a, w3, 6) == Run(DocEvents()[3..], w8);
    assert Steps(a, w2, 7) == Run(DocEvents()[2..], w8);
    assert Steps(a, w1, 8) == Run(DocEvents()[1..], w8);
  }

  /** Unlinking the emphasis leaves the paragraph with the first text as
      its only child, and the emphasis detached with its own child kept. */
  lemma DocUnlinkEmph()
    ensures var r := Unlink(Doc(), 3);
      && r[1].firstChild == Some(2) && r[1].lastChild == Some(2)
      && r[2].prev.None? && r[2].next.None? && r[2].parent == Some(1)
      && r[3].parent.None? && r[3].prev.None? && r[3].next.None?
      && r[3].firstChild == Some(4) && r[4].parent == Some(3)
  {
  }
}
