/**
 * `filter_unpublished`: every `object` element that has a direct `field`
 * child named `published` whose text is `False` is detached from its parent,
 * with its whole subtree and its tail.
 *
 * The document is the already parsed tree; parsing and serialisation are
 * left to lxml and are not modelled.
 */
module UnpublishedFilter {
  import opened Wrappers
  import opened ElementTree
  import opened Selectors

  /**
   * The root element has no parent: `node.getparent()` is `None` and calling
   * `remove` on it raises.
   */
  datatype FilterError = RootHasNoParent

  /** What `filter_unpublished` gives for a parsed document. */
  function Filtered(doc: Elem): Result<Elem, FilterError>
  {
    if IsUnpublished(doc) then Err(RootHasNoParent) else Ok(Prune(doc, Unpublished, None))
  }

  /**
   * The source's loop: the selection is evaluated once on the whole document,
   * then each selected element is removed from its parent in document order.
   * An element selected inside an already removed one is removed from the
   * detached subtree, which leaves the document as it is.
   */
  method FilterUnpublished(doc: Elem) returns (r: Result<Elem, FilterError>)
    requires Unique(doc)
    ensures r == Filtered(doc)
  {
    var selected := Select(doc, Unpublished);
    var tree := doc;
    var i := 0;
    assert IdSet(selected[..0]) == {};
    DetachNothing(doc, None);
    while i < |selected|
      invariant 0 <= i <= |selected|
      invariant tree == Detach(doc, IdSet(selected[..i]), None)
      invariant i > 0 ==> !IsUnpublished(doc)
    {
      var node := selected[i];
      if node.id == tree.id {
        SelectedRoot(doc, Unpublished, node);
        return Err(RootHasNoParent);
      }
      assert Remove(tree, node) == Detach(doc, IdSet(selected[..i + 1]), None) by {
        DetachThenDetach(doc, IdSet(selected[..i]), {node.id}, None);
        assert selected[..i + 1] == selected[..i] + [node];
        IdSetSnoc(selected[..i], node);
      }
      tree := Remove(tree, node);
      i := i + 1;
    }
    assert selected[..i] == selected;
    DetachSelectedIsPrune(doc, Unpublished, None);
    return Ok(tree);
  }

  // ---------------------------------------------------------------------------
  // Pruning never creates an unpublished element
  // ---------------------------------------------------------------------------

  /** Each tree left by pruning a forest is a pruned tree of that forest that did not match. */
  lemma {:induction false} PrunedFrom(ts: seq<Elem>, i: nat)
    requires i < |PruneForest(ts, Unpublished, None)|
    ensures exists j :: (0 <= j < |ts| && !IsUnpublished(ts[j]) &&
      PruneForest(ts, Unpublished, None)[i] == Prune(ts[j], Unpublished, None))
  {
    var rest := PruneForest(ts[1..], Unpublished, None);
    if IsUnpublished(ts[0]) {
      assert PruneForest(ts, Unpublished, None) == rest;
      PrunedFrom(ts[1..], i);
      var j :| 0 <= j < |ts[1..]| && !IsUnpublished(ts[1..][j]) && rest[i] == Prune(ts[1..][j], Unpublished, None);
      assert ts[1..][j] == ts[j + 1];
    } else if i > 0 {
      assert PruneForest(ts, Unpublished, None) == [Prune(ts[0], Unpublished, None)] + rest;
      PrunedFrom(ts[1..], i - 1);
      var j :| 0 <= j < |ts[1..]| && !IsUnpublished(ts[1..][j]) && rest[i - 1] == Prune(ts[1..][j], Unpublished, None);
      assert ts[1..][j] == ts[j + 1];
    }
  }

  /**
   * Pruning removes only `object` elements (with their tails), so a pruned
   * element has no text node and no published field its original lacked.
   */
  lemma UnpublishedAfterOnlyIfBefore(t: Elem)
    requires IsUnpublished(Prune(t, Unpublished, None))
    ensures IsUnpublished(t)
  {
    var p := Prune(t, Unpublished, None);
    var i :| 0 <= i < |p.children| && IsPublishedFalse(p.children[i]);
    PrunedFrom(t.children, i);
    var j :| 0 <= j < |t.children| && !IsUnpublished(t.children[j]) && p.children[i] == Prune(t.children[j], Unpublished, None);
    var f, f' := t.children[j], p.children[i];
    if f.text != Some("False") {
      var k :| 0 <= k < |f'.children| && f'.children[k].tail == Some("False");
      PrunedFrom(f.children, k);
    }
    assert IsPublishedFalse(f);
  }

  lemma {:induction false} NoneLeftInTree(t: Elem)
    requires !IsUnpublished(t)
    ensures forall x :: x in Nodes(Prune(t, Unpublished, None)) ==> !IsUnpublished(x)
  {
    NoneLeftInForest(t.children);
    if IsUnpublished(Prune(t, Unpublished, None)) {
      UnpublishedAfterOnlyIfBefore(t);
    }
  }

  lemma {:induction false} NoneLeftInForest(ts: seq<Elem>)
    ensures forall x :: x in ForestNodes(PruneForest(ts, Unpublished, None)) ==> !IsUnpublished(x)
  {
    if ts != [] {
      var rest := PruneForest(ts[1..], Unpublished, None);
      NoneLeftInForest(ts[1..]);
      if IsUnpublished(ts[0]) {
        assert PruneForest(ts, Unpublished, None) == rest;
      } else {
        var head := Prune(ts[0], Unpublished, None);
        NoneLeftInTree(ts[0]);
        assert PruneForest(ts, Unpublished, None) == [head] + rest;
        ForestNodesCons(head, rest);
      }
    }
  }

  // ---------------------------------------------------------------------------
  // Properties of filter_unpublished
  // ---------------------------------------------------------------------------

  /** After filtering, no element anywhere in the document is selected by the query. */
  lemma NothingUnpublishedRemains(doc: Elem)
    requires Filtered(doc).Ok?
    ensures forall x :: x in Nodes(Filtered(doc).value) ==> !IsUnpublished(x)
  {
    NoneLeftInTree(doc);
  }

  lemma {:induction false} SubtreeGoneInTree(t: Elem, x: Elem)
    requires Unique(t) && x in ForestNodes(t.children) && IsUnpublished(x)
    ensures Ids(x) !! Ids(Prune(t, Unpublished, None))
  {
    ForestNodesIds(t.children, x);
    SubtreeGoneInForest(t.children, x);
  }

  lemma {:induction false} SubtreeGoneInForest(ts: seq<Elem>, x: Elem)
    requires UniqueForest(ts) && x in ForestNodes(ts) && IsUnpublished(x)
    ensures Ids(x) !! ForestIds(PruneForest(ts, Unpublished, None))
  {
    var rest := PruneForest(ts[1..], Unpublished, None);
    PruneForestKeepsUnique(ts[1..], Unpublished, None);
    if x in Nodes(ts[0]) {
      NodesIds(ts[0], x);
      if IsUnpublished(ts[0]) {
        assert PruneForest(ts, Unpublished, None) == rest;
      } else {
        var head := Prune(ts[0], Unpublished, None);
        assert x != ts[0];
        SubtreeGoneInTree(ts[0], x);
        UniqueForestCons(head, rest);
        assert PruneForest(ts, Unpublished, None) == [head] + rest;
      }
    } else {
      ForestNodesIds(ts[1..], x);
      SubtreeGoneInForest(ts[1..], x);
      if IsUnpublished(ts[0]) {
        assert PruneForest(ts, Unpublished, None) == rest;
      } else {
        var head := Prune(ts[0], Unpublished, None);
        PruneKeepsUnique(ts[0], Unpublished, None);
        UniqueForestCons(head, rest);
        assert PruneForest(ts, Unpublished, None) == [head] + rest;
      }
    }
  }

  /**
   * A selected element goes with its whole subtree: no element of it, not even
   * one that was not selected itself, is left in the result.
   */
  lemma SelectedSubtreeGone(doc: Elem, x: Elem)
    requires Unique(doc) && x in Nodes(doc) && IsUnpublished(x) && Filtered(doc).Ok?
    ensures Ids(x) !! Ids(Filtered(doc).value)
  {
    SubtreeGoneInTree(doc, x);
  }

  /** A document with no unpublished element comes back unchanged. */
  lemma PublishedDocumentUnchanged(doc: Elem)
    requires forall x :: x in Nodes(doc) ==> !IsUnpublished(x)
    ensures Filtered(doc) == Ok(doc)
  {
    assert doc in Nodes(doc);
    PruneUnchanged(doc, Unpublished, None);
  }

  /** Filtering twice is filtering once. */
  lemma FilterIdempotent(doc: Elem)
    requires Filtered(doc).Ok?
    ensures Filtered(Filtered(doc).value) == Filtered(doc)
  {
    NothingUnpublishedRemains(doc);
    PublishedDocumentUnchanged(Filtered(doc).value);
  }

  // ---------------------------------------------------------------------------
  // The documented example
  // ---------------------------------------------------------------------------

  function Field(id: NodeId, name: string, value: string, tail: string): Elem
  {
    Elem(id, "field", map["name" := name], Some(value), [], Some(tail))
  }

  function ObjectOf(id: NodeId, text: Option<string>, children: seq<Elem>, tail: Option<string>): Elem
  {
    Elem(id, "object", map[], text, children, tail)
  }

  /** The doctest input: four objects, the last holding a nested one. */
  function ExampleInput(): Elem
  {
    Elem(0, "root", map[], Some("\n"), [
      ObjectOf(1, None, [Field(2, "published", "False", "hahaha")], Some("\n")),
      ObjectOf(3, None, [Field(4, "published", "True", "hihih")], Some("\n")),
      ObjectOf(5, None, [Field(6, "koe", "False", "lololol")], Some("\n")),
      ObjectOf(7, Some("\n    "), [
        Field(8, "published", "False", "\n    hahaha\n    "),
        ObjectOf(9, None, [Field(10, "koe", "False", "doe eens niet")], Some("\n"))
      ], None)
    ], None)
  }

  /** The doctest output: the published object and the `koe` object, each with its newline tail. */
  function ExampleOutput(): Elem
  {
    Elem(0, "root", map[], Some("\n"), [
      ObjectOf(3, None, [Field(4, "published", "True", "hihih")], Some("\n")),
      ObjectOf(5, None, [Field(6, "koe", "False", "lololol")], Some("\n"))
    ], None)
  }

  lemma DocumentedExample()
    ensures Filtered(ExampleInput()) == Ok(ExampleOutput())
  {
    var doc := ExampleInput();
    var o1, o2, o3, o4 := doc.children[0], doc.children[1], doc.children[2], doc.children[3];
    assert IsPublishedFalse(o1.children[0]);
    assert IsUnpublished(o1);
    assert !IsPublishedFalse(o2.children[0]);
    assert !IsUnpublished(o2);
    assert !IsPublishedFalse(o3.children[0]);
    assert !IsUnpublished(o3);
    assert IsPublishedFalse(o4.children[0]);
    assert IsUnpublished(o4);
    assert !IsUnpublished(doc);
    assert Prune(o2, Unpublished, None) == o2 by {
      assert !IsUnpublished(o2.children[0]);
      assert PruneForest(o2.children, Unpublished, None) == o2.children;
    }
    assert Prune(o3, Unpublished, None) == o3 by {
      assert !IsUnpublished(o3.children[0]);
      assert PruneForest(o3.children, Unpublished, None) == o3.children;
    }
    var ts := doc.children;
    assert PruneForest(ts[3..], Unpublished, None) == [] by {
      assert ts[3..][1..] == [];
    }
    assert PruneForest(ts[2..], Unpublished, None) == [o3] by {
      assert ts[2..][1..] == ts[3..];
    }
    assert PruneForest(ts[1..], Unpublished, None) == [o2, o3] by {
      assert ts[1..][1..] == ts[2..];
    }
    assert PruneForest(ts, Unpublished, None) == [o2, o3];
  }
}
