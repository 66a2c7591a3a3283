/**
 * An abstract lxml element tree.
 *
 * Every element carries an `id` that stands for its object identity: lxml's
 * `remove` and `replace` act on element objects, and an XPath result is a list
 * of such objects computed before the tree is changed. A tree in which every
 * element is a distinct object satisfies `Unique`.
 *
 * An element's `tail` (the text that follows its end tag) belongs to it, as in
 * lxml: detaching or replacing an element takes its tail along.
 */
module ElementTree {
  import opened Wrappers

  type NodeId = nat

  datatype Elem = Elem(
    id: NodeId,
    tag: string,
    attrs: map<string, string>,
    text: Option<string>,
    children: seq<Elem>,
    tail: Option<string>)

  /** The value of attribute `name`, if the element has one. */
  function Attr(e: Elem, name: string): Option<string>
  {
    if name in e.attrs then Some(e.attrs[name]) else None
  }

  // ---------------------------------------------------------------------------
  // Document order, identities and distinctness
  // ---------------------------------------------------------------------------

  /** The elements of `t` in document order (pre-order), `t` first. */
  function Nodes(t: Elem): seq<Elem>
  {
    [t] + ForestNodes(t.children)
  }

  function ForestNodes(ts: seq<Elem>): seq<Elem>
  {
    if ts == [] then [] else Nodes(ts[0]) + ForestNodes(ts[1..])
  }

  /** The identities of all elements of `t`. */
  function Ids(t: Elem): set<NodeId>
  {
    {t.id} + ForestIds(t.children)
  }

  function ForestIds(ts: seq<Elem>): set<NodeId>
  {
    if ts == [] then {} else Ids(ts[0]) + ForestIds(ts[1..])
  }

  /** The identities of the elements listed in `s`. */
  function IdSet(s: seq<Elem>): set<NodeId>
  {
    set x | x in s :: x.id
  }

  /** Every element of `t` is a distinct object. */
  predicate Unique(t: Elem)
  {
    t.id !in ForestIds(t.children) && UniqueForest(t.children)
  }

  /** The trees of `ts` are each `Unique` and share no element. */
  predicate UniqueForest(ts: seq<Elem>)
  {
    ts == [] || (Unique(ts[0]) && Ids(ts[0]) !! ForestIds(ts[1..]) && UniqueForest(ts[1..]))
  }

  /** No two positions of `s` hold elements with the same identity. */
  predicate DistinctIds(s: seq<Elem>)
  {
    s == [] || (s[0].id !in IdSet(s[1..]) && DistinctIds(s[1..]))
  }

  lemma {:induction false} NodesIds(t: Elem, x: Elem)
    requires x in Nodes(t)
    ensures Ids(x) <= Ids(t)
    ensures Unique(t) ==> Unique(x)
  {
    if x != t {
      ForestNodesIds(t.children, x);
    }
  }

  lemma {:induction false} ForestNodesIds(ts: seq<Elem>, x: Elem)
    requires x in ForestNodes(ts)
    ensures Ids(x) <= ForestIds(ts)
    ensures UniqueForest(ts) ==> Unique(x)
  {
    if x in Nodes(ts[0]) {
      NodesIds(ts[0], x);
    } else {
      ForestNodesIds(ts[1..], x);
    }
  }

  /** A tree listed in a forest contributes its elements and identities to it. */
  lemma {:induction false} MemberOfForest(ts: seq<Elem>, i: nat)
    requires i < |ts|
    ensures Ids(ts[i]) <= ForestIds(ts)
    ensures forall x :: x in Nodes(ts[i]) ==> x in ForestNodes(ts)
    ensures UniqueForest(ts) ==> Unique(ts[i])
  {
    if i > 0 {
      MemberOfForest(ts[1..], i - 1);
    }
  }

  /** Siblings of a forest without shared elements have disjoint identities. */
  lemma {:induction false} SiblingsDisjoint(ts: seq<Elem>, i: nat, j: nat)
    requires UniqueForest(ts) && i < |ts| && j < |ts| && i != j
    ensures Ids(ts[i]) !! Ids(ts[j])
  {
    if i == 0 {
      MemberOfForest(ts[1..], j - 1);
    } else if j == 0 {
      MemberOfForest(ts[1..], i - 1);
    } else {
      SiblingsDisjoint(ts[1..], i - 1, j - 1);
    }
  }

  /** In a tree of distinct objects, an identity names one element. */
  lemma {:induction false} SameIdSameNode(t: Elem, x: Elem, y: Elem)
    requires Unique(t) && x in Nodes(t) && y in Nodes(t) && x.id == y.id
    ensures x == y
  {
    if x == t && y != t {
      ForestNodesIds(t.children, y);
    } else if y == t && x != t {
      ForestNodesIds(t.children, x);
    } else if x != t && y != t {
      ForestSameIdSameNode(t.children, x, y);
    }
  }

  lemma {:induction false} ForestSameIdSameNode(ts: seq<Elem>, x: Elem, y: Elem)
    requires UniqueForest(ts) && x in ForestNodes(ts) && y in ForestNodes(ts) && x.id == y.id
    ensures x == y
  {
    var inX, inY := x in Nodes(ts[0]), y in Nodes(ts[0]);
    if inX && inY {
      SameIdSameNode(ts[0], x, y);
    } else if inX {
      NodesIds(ts[0], x);
      ForestNodesIds(ts[1..], y);
    } else if inY {
      NodesIds(ts[0], y);
      ForestNodesIds(ts[1..], x);
    } else {
      ForestSameIdSameNode(ts[1..], x, y);
    }
  }

  // ---------------------------------------------------------------------------
  // Positions
  // ---------------------------------------------------------------------------

  /** The element reached from `t` by following child indices `p`. */
  function At(t: Elem, p: seq<nat>): Option<Elem>
    decreases |p|
  {
    if p == [] then Some(t)
    else if p[0] < |t.children| then At(t.children[p[0]], p[1..])
    else None
  }

  /** Neither path is a prefix of the other: the positions lie in disjoint subtrees. */
  predicate Apart(p: seq<nat>, q: seq<nat>)
  {
    p != [] && q != [] && (p[0] != q[0] || Apart(p[1..], q[1..]))
  }

  /**
   * `t` with the element at position `p` replaced by `d`; the replaced element's
   * siblings keep their places, and every position apart from `p` is unchanged.
   */
  function PutAt(t: Elem, p: seq<nat>, d: Elem): (r: Elem)
    requires At(t, p).Some?
    ensures At(r, p) == Some(d)
    ensures p != [] ==> r.id == t.id && |r.children| == |t.children|
    ensures p != [] ==> r.(children := t.children) == t
    ensures forall q :: Apart(p, q) ==> At(r, q) == At(t, q)
    decreases |p|
  {
    if p == [] then d
    else t.(children := t.children[p[0] := PutAt(t.children[p[0]], p[1..], d)])
  }

  /**
   * Every element on the path to `p`, above it, keeps its own identity, tag,
   * attributes, text and tail: only its children change.
   */
  lemma {:induction false} PutAtKeepsAncestors(t: Elem, p: seq<nat>, d: Elem)
    requires At(t, p).Some?
    ensures forall k :: 0 <= k < |p| ==>
      At(t, p[..k]).Some? && At(PutAt(t, p, d), p[..k]).Some? &&
      At(PutAt(t, p, d), p[..k]).value.(children := []) == At(t, p[..k]).value.(children := [])
    decreases |p|
  {
    if p != [] {
      var r, c := PutAt(t, p, d), t.children[p[0]];
      PutAtKeepsAncestors(c, p[1..], d);
      forall k | 0 < k < |p|
        ensures At(t, p[..k]) == At(c, p[1..][..k - 1])
        ensures At(r, p[..k]) == At(r.children[p[0]], p[1..][..k - 1])
      {
        assert p[..k][0] == p[0] && p[..k][1..] == p[1..][..k - 1];
      }
      assert p[..0] == [];
    }
  }

  lemma {:induction false} AtInNodes(t: Elem, p: seq<nat>)
    requires At(t, p).Some?
    ensures At(t, p).value in Nodes(t)
    ensures p != [] ==> At(t, p).value in ForestNodes(t.children)
    decreases |p|
  {
    if p != [] {
      var c := t.children[p[0]];
      AtInNodes(c, p[1..]);
      MemberOfForest(t.children, p[0]);
    }
  }

  // ---------------------------------------------------------------------------
  // lxml's remove and replace, by identity
  // ---------------------------------------------------------------------------

  /** An element to put in place of the element whose identity is `at`. */
  datatype Graft = Graft(at: NodeId, node: Elem)

  /**
   * Detaches from `t` every element below the root whose identity is in `ids`,
   * subtree and tail included; the one whose identity is `graft.at`, if any, is
   * replaced by `graft.node` instead. An identity that is not in the tree
   * (a node already detached with an ancestor) changes nothing.
   */
  function Detach(t: Elem, ids: set<NodeId>, graft: Option<Graft>): (r: Elem)
  {
    t.(children := DetachForest(t.children, ids, graft))
  }

  function DetachForest(ts: seq<Elem>, ids: set<NodeId>, graft: Option<Graft>): seq<Elem>
  {
    if ts == [] then []
    else
      var head :=
        if ts[0].id in ids then
          (if graft.Some? && graft.value.at == ts[0].id then [graft.value.node] else [])
        else [Detach(ts[0], ids, graft)];
      head + DetachForest(ts[1..], ids, graft)
  }

  /** `parent.remove(node)`, where `node` is an element of `t` other than its root. */
  function Remove(t: Elem, node: Elem): Elem
  {
    Detach(t, {node.id}, None)
  }

  /**
   * `parent.replace(node, draft)`: `draft` is first taken out of wherever it
   * sits (lxml moves an element that already has a parent), then put in the
   * place of `node`.
   */
  function Replace(t: Elem, node: Elem, draft: Elem): Elem
  {
    Detach(Remove(t, draft), {node.id}, Some(Graft(node.id, draft)))
  }

  lemma {:induction false} DetachNothing(t: Elem, graft: Option<Graft>)
    ensures Detach(t, {}, graft) == t
  {
    DetachForestNothing(t.children, graft);
  }

  lemma {:induction false} DetachForestNothing(ts: seq<Elem>, graft: Option<Graft>)
    ensures DetachForest(ts, {}, graft) == ts
  {
    if ts != [] {
      DetachNothing(ts[0], graft);
      DetachForestNothing(ts[1..], graft);
    }
  }

  /**
   * Removing the elements `ids` and then the elements `more` is removing
   * `ids + more` at once, provided the graft target was not already removed.
   */
  /** Detaching identities that are not below the root changes nothing. */
  lemma {:induction false} DetachAbsent(t: Elem, ids: set<NodeId>, graft: Option<Graft>)
    requires ids !! ForestIds(t.children)
    ensures Detach(t, ids, graft) == t
  {
    DetachForestAbsent(t.children, ids, graft);
  }

  lemma {:induction false} DetachForestAbsent(ts: seq<Elem>, ids: set<NodeId>, graft: Option<Graft>)
    requires ids !! ForestIds(ts)
    ensures DetachForest(ts, ids, graft) == ts
  {
    if ts != [] {
      DetachAbsent(ts[0], ids, graft);
      DetachForestAbsent(ts[1..], ids, graft);
    }
  }

  /**
   * `parent.remove(node)` on a tree of distinct objects takes away exactly the
   * elements of `node`'s subtree, and the rest are still distinct objects.
   */
  lemma {:induction false} RemoveTakesSubtree(t: Elem, node: Elem)
    requires Unique(t) && node in ForestNodes(t.children)
    ensures Ids(Remove(t, node)) == Ids(t) - Ids(node)
    ensures Unique(Remove(t, node))
  {
    ForestNodesIds(t.children, node);
    RemoveFromForest(t.children, node);
  }

  lemma {:induction false} RemoveFromForest(ts: seq<Elem>, node: Elem)
    requires UniqueForest(ts) && node in ForestNodes(ts)
    ensures ForestIds(DetachForest(ts, {node.id}, None)) == ForestIds(ts) - Ids(node)
    ensures UniqueForest(DetachForest(ts, {node.id}, None))
  {
    var rest := ts[1..];
    var ids := {node.id};
    if node in Nodes(ts[0]) {
      NodesIds(ts[0], node);
      DetachForestAbsent(rest, ids, None);
      if node == ts[0] {
        assert DetachForest(ts, ids, None) == rest;
      } else {
        var head := Detach(ts[0], ids, None);
        RemoveTakesSubtree(ts[0], node);
        assert DetachForest(ts, ids, None) == [head] + rest;
        UniqueForestCons(head, rest);
      }
    } else {
      ForestNodesIds(rest, node);
      DetachAbsent(ts[0], ids, None);
      RemoveFromForest(rest, node);
      var tail := DetachForest(rest, ids, None);
      assert DetachForest(ts, ids, None) == [ts[0]] + tail;
      UniqueForestCons(ts[0], tail);
    }
  }

  lemma {:induction false} DetachThenDetach(t: Elem, ids: set<NodeId>, more: set<NodeId>, graft: Option<Graft>)
    requires graft.Some? ==> graft.value.at !in ids
    ensures Detach(Detach(t, ids, None), more, graft) == Detach(t, ids + more, graft)
  {
    DetachForestThenDetach(t.children, ids, more, graft);
  }

  lemma {:induction false} DetachForestThenDetach(ts: seq<Elem>, ids: set<NodeId>, more: set<NodeId>, graft: Option<Graft>)
    requires graft.Some? ==> graft.value.at !in ids
    ensures DetachForest(DetachForest(ts, ids, None), more, graft) == DetachForest(ts, ids + more, graft)
  {
    if ts != [] {
      var first := DetachForest(ts, ids, None);
      DetachForestThenDetach(ts[1..], ids, more, graft);
      if ts[0].id in ids {
        assert first == DetachForest(ts[1..], ids, None);
      } else {
        DetachThenDetach(ts[0], ids, more, graft);
        assert first == [Detach(ts[0], ids, None)] + DetachForest(ts[1..], ids, None);
        assert first[1..] == DetachForest(ts[1..], ids, None);
      }
    }
  }

  /**
   * Removing a grafted element again undoes the graft, when its identity is
   * not that of any element of the original tree below the root.
   */
  lemma {:induction false} DetachGraftAgain(t: Elem, ids: set<NodeId>, graft: Option<Graft>, x: NodeId)
    requires graft.Some? ==> graft.value.node.id == x
    requires x !in ForestIds(t.children)
    ensures Detach(Detach(t, ids, graft), {x}, None) == Detach(t, ids, None)
  {
    DetachForestGraftAgain(t.children, ids, graft, x);
  }

  lemma {:induction false} DetachForestGraftAgain(ts: seq<Elem>, ids: set<NodeId>, graft: Option<Graft>, x: NodeId)
    requires graft.Some? ==> graft.value.node.id == x
    requires x !in ForestIds(ts)
    ensures DetachForest(DetachForest(ts, ids, graft), {x}, None) == DetachForest(ts, ids, None)
  {
    if ts != [] {
      var first := DetachForest(ts, ids, graft);
      DetachForestGraftAgain(ts[1..], ids, graft, x);
      if ts[0].id in ids {
        if graft.Some? && graft.value.at == ts[0].id {
          assert first == [graft.value.node] + DetachForest(ts[1..], ids, graft);
          assert first[1..] == DetachForest(ts[1..], ids, graft);
        } else {
          assert first == DetachForest(ts[1..], ids, graft);
        }
      } else {
        DetachGraftAgain(ts[0], ids, graft, x);
        assert first == [Detach(ts[0], ids, graft)] + DetachForest(ts[1..], ids, graft);
        assert first[1..] == DetachForest(ts[1..], ids, graft);
      }
    }
  }

  /**
   * `replace` after detaching `done`, with the draft grafted at most at one
   * earlier place: the draft leaves that place and takes the place of `node`.
   */
  lemma ReplaceAfterDetach(t: Elem, done: set<NodeId>, before: Option<Graft>, node: Elem, draft: Elem)
    requires before.Some? ==> before.value.node == draft
    requires draft.id !in ForestIds(t.children) && node.id !in done
    ensures Replace(Detach(t, done, before), node, draft) == Detach(t, done + {node.id}, Some(Graft(node.id, draft)))
  {
    DetachGraftAgain(t, done, before, draft.id);
    DetachThenDetach(t, done, {node.id}, Some(Graft(node.id, draft)));
  }

  lemma {:induction false} ForestIdsAppend(a: seq<Elem>, b: seq<Elem>)
    ensures ForestIds(a + b) == ForestIds(a) + ForestIds(b)
  {
    if a != [] {
      assert (a + b)[0] == a[0];
      assert (a + b)[1..] == a[1..] + b;
      ForestIdsAppend(a[1..], b);
    } else {
      assert a + b == b;
    }
  }

  /** The shape of `UniqueForest` on a forest with a known first tree. */
  lemma UniqueForestCons(x: Elem, rest: seq<Elem>)
    ensures ForestIds([x] + rest) == Ids(x) + ForestIds(rest)
    ensures UniqueForest([x] + rest) <==> Unique(x) && Ids(x) !! ForestIds(rest) && UniqueForest(rest)
  {
    assert ([x] + rest)[0] == x;
    assert ([x] + rest)[1..] == rest;
  }

  lemma ForestNodesCons(x: Elem, rest: seq<Elem>)
    ensures ForestNodes([x] + rest) == Nodes(x) + ForestNodes(rest)
  {
    assert ([x] + rest)[0] == x;
    assert ([x] + rest)[1..] == rest;
  }

  lemma IdSetSnoc(s: seq<Elem>, x: Elem)
    ensures IdSet(s + [x]) == IdSet(s) + {x.id}
  {
    assert forall y :: y in s + [x] <==> y in s || y == x;
  }

  lemma IdSetAppend(a: seq<Elem>, b: seq<Elem>)
    ensures IdSet(a + b) == IdSet(a) + IdSet(b)
  {
    assert forall y :: y in a + b <==> y in a || y in b;
  }

  lemma {:induction false} IdSetOfDistinct(s: seq<Elem>, j: nat)
    requires DistinctIds(s) && j < |s|
    ensures s[j].id !in IdSet(s[..j])
  {
    if j > 0 {
      IdSetOfDistinct(s[1..], j - 1);
      assert s[..j] == [s[0]] + s[1..][..j - 1];
      assert s[j] == s[1..][j - 1];
      assert s[j] in s[1..];
    }
  }

  lemma {:induction false} DistinctIdsAppend(a: seq<Elem>, b: seq<Elem>)
    requires DistinctIds(a) && DistinctIds(b) && IdSet(a) !! IdSet(b)
    ensures DistinctIds(a + b)
  {
    if a != [] {
      assert (a + b)[1..] == a[1..] + b;
      assert IdSet(a[1..]) <= IdSet(a) by {
        forall y | y in a[1..] ensures y in a { }
      }
      DistinctIdsAppend(a[1..], b);
      IdSetAppend(a[1..], b);
      assert a[0] in a;
    } else {
      assert a + b == b;
    }
  }
}
