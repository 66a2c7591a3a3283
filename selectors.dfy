/**
 * The two XPath expressions of the draft-preview utilities, hard-coded, and
 * the declarative description of what removing or replacing their matches
 * does to a document.
 *
 *   //object[field[@name='published' and text() = 'False']]   (Unpublished)
 *   //object[@pk='<pk>' and @model='<app_label>.<model>']      (Target)
 *
 * `//` selects at any depth, the root element included, in document order.
 */
module Selectors {
  import opened Wrappers
  import opened ElementTree

  datatype Query = Unpublished | Target(pk: string, model: string)

  /** `text() = s`: some text node of `e` (its text, or the tail of one of its children) is `s`. */
  predicate HasTextNode(e: Elem, s: string)
  {
    e.text == Some(s) || exists i :: 0 <= i < |e.children| && e.children[i].tail == Some(s)
  }

  /** `field[@name='published' and text() = 'False']` */
  predicate IsPublishedFalse(e: Elem)
  {
    e.tag == "field" && Attr(e, "name") == Some("published") && HasTextNode(e, "False")
  }

  /** `object[field[@name='published' and text() = 'False']]`: a direct child field says so. */
  predicate IsUnpublished(e: Elem)
  {
    e.tag == "object" && exists i :: 0 <= i < |e.children| && IsPublishedFalse(e.children[i])
  }

  /** `object[@pk='<pk>' and @model='<model>']` */
  predicate IsTarget(e: Elem, pk: string, model: string)
  {
    e.tag == "object" && Attr(e, "pk") == Some(pk) && Attr(e, "model") == Some(model)
  }

  predicate Matches(q: Query, e: Elem)
  {
    match q
    case Unpublished => IsUnpublished(e)
    case Target(pk, model) => IsTarget(e, pk, model)
  }

  /** The XPath result `//q` evaluated on the document rooted at `t`, in document order. */
  function Select(t: Elem, q: Query): seq<Elem>
  {
    (if Matches(q, t) then [t] else []) + SelectForest(t.children, q)
  }

  function SelectForest(ts: seq<Elem>, q: Query): seq<Elem>
  {
    if ts == [] then [] else Select(ts[0], q) + SelectForest(ts[1..], q)
  }

  /**
   * The document once every matching element below the root is gone, each
   * with its subtree and tail: a matching child is dropped (or, if it is the
   * one `graft` names, replaced by the graft) and a child that does not match
   * is kept in its place with the same treatment applied inside it.
   */
  function Prune(t: Elem, q: Query, graft: Option<Graft>): Elem
  {
    t.(children := PruneForest(t.children, q, graft))
  }

  function PruneForest(ts: seq<Elem>, q: Query, graft: Option<Graft>): seq<Elem>
  {
    if ts == [] then []
    else
      var head :=
        if Matches(q, ts[0]) then
          (if graft.Some? && graft.value.at == ts[0].id then [graft.value.node] else [])
        else [Prune(ts[0], q, graft)];
      head + PruneForest(ts[1..], q, graft)
  }

  /** The identities a graft adds to a tree whose identities are `s`. */
  function Grafted(graft: Option<Graft>, s: set<NodeId>): set<NodeId>
  {
    if graft.Some? && graft.value.at in s then Ids(graft.value.node) else {}
  }

  // ---------------------------------------------------------------------------
  // What the selection holds
  // ---------------------------------------------------------------------------

  /** The selection holds exactly the matching elements of the document. */
  lemma {:induction false} SelectExactly(t: Elem, q: Query)
    ensures forall x :: x in Select(t, q) <==> x in Nodes(t) && Matches(q, x)
  {
    SelectForestExactly(t.children, q);
  }

  lemma {:induction false} SelectForestExactly(ts: seq<Elem>, q: Query)
    ensures forall x :: x in SelectForest(ts, q) <==> x in ForestNodes(ts) && Matches(q, x)
  {
    if ts != [] {
      SelectExactly(ts[0], q);
      SelectForestExactly(ts[1..], q);
    }
  }

  /** In a tree of distinct objects, the selection lists no element twice. */
  lemma {:induction false} SelectDistinct(t: Elem, q: Query)
    requires Unique(t)
    ensures DistinctIds(Select(t, q))
    ensures IdSet(Select(t, q)) <= Ids(t)
  {
    SelectForestDistinct(t.children, q);
    var head := if Matches(q, t) then [t] else [];
    assert DistinctIds(head);
    assert IdSet(head) !! IdSet(SelectForest(t.children, q));
    DistinctIdsAppend(head, SelectForest(t.children, q));
    IdSetAppend(head, SelectForest(t.children, q));
  }

  lemma {:induction false} SelectForestDistinct(ts: seq<Elem>, q: Query)
    requires UniqueForest(ts)
    ensures DistinctIds(SelectForest(ts, q))
    ensures IdSet(SelectForest(ts, q)) <= ForestIds(ts)
  {
    if ts != [] {
      SelectDistinct(ts[0], q);
      SelectForestDistinct(ts[1..], q);
      DistinctIdsAppend(Select(ts[0], q), SelectForest(ts[1..], q));
      IdSetAppend(Select(ts[0], q), SelectForest(ts[1..], q));
    }
  }

  /**
   * Below the root of a tree of distinct objects, an element's identity is
   * among the selected identities exactly when the element matches.
   */
  lemma SelectionIdentifies(t: Elem, q: Query)
    requires Unique(t)
    ensures forall x :: x in ForestNodes(t.children) ==> (x.id in IdSet(Select(t, q)) <==> Matches(q, x))
  {
    SelectExactly(t, q);
    forall x | x in ForestNodes(t.children)
      ensures x.id in IdSet(Select(t, q)) <==> Matches(q, x)
    {
      assert x in Nodes(t);
      if x.id in IdSet(Select(t, q)) {
        var y :| y in Select(t, q) && y.id == x.id;
        SameIdSameNode(t, x, y);
      }
    }
  }

  // ---------------------------------------------------------------------------
  // Removal by identity is pruning by query
  // ---------------------------------------------------------------------------

  /**
   * Detaching a set of identities that agrees with a query on every element
   * below the root gives the pruned document.
   */
  lemma {:induction false} DetachIsPrune(t: Elem, q: Query, ids: set<NodeId>, graft: Option<Graft>)
    requires forall x :: x in ForestNodes(t.children) ==> (x.id in ids <==> Matches(q, x))
    ensures Detach(t, ids, graft) == Prune(t, q, graft)
  {
    DetachForestIsPrune(t.children, q, ids, graft);
  }

  /** Detaching exactly the selected elements gives the pruned document. */
  lemma DetachSelectedIsPrune(t: Elem, q: Query, graft: Option<Graft>)
    requires Unique(t)
    ensures Detach(t, IdSet(Select(t, q)), graft) == Prune(t, q, graft)
  {
    SelectionIdentifies(t, q);
    DetachIsPrune(t, q, IdSet(Select(t, q)), graft);
  }

  /** A selected element that is the root object is there only because the root matches. */
  lemma SelectedRoot(t: Elem, q: Query, x: Elem)
    requires Unique(t) && x in Select(t, q) && x.id == t.id
    ensures Matches(q, t)
  {
    SelectExactly(t, q);
    assert t in Nodes(t);
    SameIdSameNode(t, x, t);
  }

  lemma {:induction false} DetachForestIsPrune(ts: seq<Elem>, q: Query, ids: set<NodeId>, graft: Option<Graft>)
    requires forall x :: x in ForestNodes(ts) ==> (x.id in ids <==> Matches(q, x))
    ensures DetachForest(ts, ids, graft) == PruneForest(ts, q, graft)
  {
    if ts != [] {
      assert ts[0] in Nodes(ts[0]);
      DetachIsPrune(ts[0], q, ids, graft);
      DetachForestIsPrune(ts[1..], q, ids, graft);
    }
  }

  /** A document in which nothing below the root matches comes back unchanged. */
  lemma {:induction false} PruneUnchanged(t: Elem, q: Query, graft: Option<Graft>)
    requires forall x :: x in ForestNodes(t.children) ==> !Matches(q, x)
    ensures Prune(t, q, graft) == t
  {
    PruneForestUnchanged(t.children, q, graft);
  }

  lemma {:induction false} PruneForestUnchanged(ts: seq<Elem>, q: Query, graft: Option<Graft>)
    requires forall x :: x in ForestNodes(ts) ==> !Matches(q, x)
    ensures PruneForest(ts, q, graft) == ts
  {
    if ts != [] {
      assert ts[0] in Nodes(ts[0]);
      PruneUnchanged(ts[0], q, graft);
      PruneForestUnchanged(ts[1..], q, graft);
      assert ts == [ts[0]] + ts[1..];
    }
  }

  // ---------------------------------------------------------------------------
  // Distinctness is kept, and a graft is placed at most once
  // ---------------------------------------------------------------------------

  /**
   * Pruning a tree of distinct objects, with a graft distinct from all of
   * them, gives a tree of distinct objects: the grafted element occurs at most
   * once, and no other element is added.
   */
  lemma {:induction false} PruneKeepsUnique(t: Elem, q: Query, graft: Option<Graft>)
    requires Unique(t)
    requires graft.Some? ==> Unique(graft.value.node) && Ids(graft.value.node) !! Ids(t)
    ensures Unique(Prune(t, q, graft))
    ensures Ids(Prune(t, q, graft)) <= Ids(t) + Grafted(graft, Ids(t))
  {
    PruneForestKeepsUnique(t.children, q, graft);
  }

  lemma {:induction false} PruneForestKeepsUnique(ts: seq<Elem>, q: Query, graft: Option<Graft>)
    requires UniqueForest(ts)
    requires graft.Some? ==> Unique(graft.value.node) && Ids(graft.value.node) !! ForestIds(ts)
    ensures UniqueForest(PruneForest(ts, q, graft))
    ensures ForestIds(PruneForest(ts, q, graft)) <= ForestIds(ts) + Grafted(graft, ForestIds(ts))
  {
    if ts != [] {
      var rest := PruneForest(ts[1..], q, graft);
      PruneForestKeepsUnique(ts[1..], q, graft);
      if Matches(q, ts[0]) {
        if graft.Some? && graft.value.at == ts[0].id {
          assert graft.value.at in Ids(ts[0]);
          assert Grafted(graft, ForestIds(ts[1..])) == {};
          UniqueForestCons(graft.value.node, rest);
          assert PruneForest(ts, q, graft) == [graft.value.node] + rest;
        } else {
          assert PruneForest(ts, q, graft) == rest;
        }
      } else {
        PruneKeepsUnique(ts[0], q, graft);
        UniqueForestCons(Prune(ts[0], q, graft), rest);
      }
    }
  }

  // ---------------------------------------------------------------------------
  // One match: replacement in place
  // ---------------------------------------------------------------------------

  /** When no child is dropped, pruning a forest treats each tree in its place. */
  lemma {:induction false} PruneForestKeepsAll(ts: seq<Elem>, q: Query, graft: Option<Graft>)
    requires forall i :: 0 <= i < |ts| && Matches(q, ts[i]) ==> graft.Some? && graft.value.at == ts[i].id
    ensures |PruneForest(ts, q, graft)| == |ts|
    ensures forall i :: 0 <= i < |ts| ==>
      PruneForest(ts, q, graft)[i] == (if Matches(q, ts[i]) then graft.value.node else Prune(ts[i], q, graft))
  {
    if ts != [] {
      PruneForestKeepsAll(ts[1..], q, graft);
    }
  }

  /**
   * If the element `m` at position `p` below the root is the only match in a
   * tree of distinct objects, grafting onto `m` replaces it at that position
   * and leaves the rest of the tree as it was.
   */
  lemma {:induction false} OnlyMatchReplacedInPlace(t: Elem, q: Query, m: Elem, d: Elem, p: seq<nat>)
    requires Unique(t) && p != [] && At(t, p) == Some(m) && Matches(q, m)
    requires forall x :: x in Nodes(t) && Matches(q, x) ==> x == m
    ensures Prune(t, q, Some(Graft(m.id, d))) == PutAt(t, p, d)
    decreases |p|
  {
    var ts, k, g := t.children, p[0], Some(Graft(m.id, d));
    AtInNodes(ts[k], p[1..]);
    MemberOfForest(ts, k);
    var x := if |p| == 1 then d else PutAt(ts[k], p[1..], d);
    forall i | 0 <= i < |ts| && i != k
      ensures !Matches(q, ts[i]) && Prune(ts[i], q, g) == ts[i]
    {
      MemberOfForest(ts, i);
      SiblingsDisjoint(ts, i, k);
      assert m.id in Ids(ts[k]) by { NodesIds(ts[k], m); }
      forall y | y in Nodes(ts[i]) ensures !Matches(q, y) {
        NodesIds(ts[i], y);
      }
      PruneUnchanged(ts[i], q, g);
    }
    if |p| > 1 {
      assert ts[k] != m by {
        AtInNodes(ts[k], p[1..]);
        ForestNodesIds(ts[k].children, m);
      }
      OnlyMatchReplacedInPlace(ts[k], q, m, d, p[1..]);
    }
    PruneForestKeepsAll(ts, q, g);
    assert PruneForest(ts, q, g) == ts[k := x];
  }

  // ---------------------------------------------------------------------------
  // Kept siblings keep their order
  // ---------------------------------------------------------------------------

  /** For each tree of `ts`, whether it does not match and is kept. */
  function Keeps(ts: seq<Elem>, q: Query): (keep: seq<bool>)
    ensures |keep| == |ts|
  {
    if ts == [] then [] else [!Matches(q, ts[0])] + Keeps(ts[1..], q)
  }

  lemma {:induction false} KeepsMeans(ts: seq<Elem>, q: Query)
    ensures forall m :: 0 <= m < |ts| ==> (Keeps(ts, q)[m] <==> !Matches(q, ts[m]))
  {
    if ts != [] {
      KeepsMeans(ts[1..], q);
      assert forall m :: 1 <= m < |ts| ==> ts[1..][m - 1] == ts[m] && Keeps(ts, q)[m] == Keeps(ts[1..], q)[m - 1];
    }
  }

  ghost predicate Increasing(idx: seq<nat>)
  {
    forall k, l :: 0 <= k < l < |idx| ==> idx[k] < idx[l]
  }

  /** Every position `keep` marks is listed in `idx`. */
  ghost predicate Covers(keep: seq<bool>, idx: seq<nat>)
  {
    forall m :: 0 <= m < |keep| && keep[m] ==> m in idx
  }

  /** `r` holds, in order, the pruned trees at the positions `idx` lists, all marked by `keep`. */
  ghost predicate Picks(ts: seq<Elem>, q: Query, keep: seq<bool>, r: seq<Elem>, idx: seq<nat>)
    requires |keep| == |ts|
  {
    |idx| == |r| && forall k :: 0 <= k < |idx| ==> idx[k] < |ts| && keep[idx[k]] && r[k] == Prune(ts[idx[k]], q, None)
  }

  ghost predicate KeptAt(ts: seq<Elem>, q: Query, keep: seq<bool>, r: seq<Elem>, idx: seq<nat>)
    requires |keep| == |ts|
  {
    Picks(ts, q, keep, r, idx) && Increasing(idx) && Covers(keep, idx)
  }

  function Shifted(idx: seq<nat>): (r: seq<nat>)
    ensures |r| == |idx| && forall k :: 0 <= k < |idx| ==> r[k] == idx[k] + 1
  {
    if idx == [] then [] else [idx[0] + 1] + Shifted(idx[1..])
  }

  /** The positions of the siblings that do not match, in increasing order. */
  function KeptIndices(ts: seq<Elem>, q: Query): seq<nat>
  {
    if ts == [] then []
    else if Matches(q, ts[0]) then Shifted(KeptIndices(ts[1..], q))
    else [0] + Shifted(KeptIndices(ts[1..], q))
  }

  lemma IncreasingCons(idx: seq<nat>)
    requires Increasing(idx)
    ensures Increasing(Shifted(idx)) && Increasing([0] + Shifted(idx))
  {
    var s := Shifted(idx);
    forall k, l | 0 <= k < l < |[0] + s|
      ensures ([0] + s)[k] < ([0] + s)[l]
    {
      if k > 0 {
        assert ([0] + s)[k] == idx[k - 1] + 1;
      }
    }
  }

  lemma CoversCons(keep: seq<bool>, idx: seq<nat>)
    requires keep != [] && Covers(keep[1..], idx)
    ensures Covers(keep, if keep[0] then [0] + Shifted(idx) else Shifted(idx))
  {
    var s := Shifted(idx);
    forall m | 0 <= m < |keep| && keep[m]
      ensures m in (if keep[0] then [0] + s else s)
    {
      if m > 0 {
        assert keep[1..][m - 1] == keep[m];
        var k :| 0 <= k < |idx| && idx[k] == m - 1;
        assert s[k] == m;
        assert ([0] + s)[k + 1] == m;
      }
    }
  }

  lemma PicksCons(ts: seq<Elem>, q: Query, keep: seq<bool>, r: seq<Elem>, idx: seq<nat>)
    requires ts != [] && |keep| == |ts| && Picks(ts[1..], q, keep[1..], r, idx)
    ensures Picks(ts, q, keep, if keep[0] then [Prune(ts[0], q, None)] + r else r,
                               if keep[0] then [0] + Shifted(idx) else Shifted(idx))
  {
    var s := Shifted(idx);
    forall k | 0 <= k < |idx|
      ensures s[k] < |ts| && keep[s[k]] && r[k] == Prune(ts[s[k]], q, None)
    {
      assert ts[1..][idx[k]] == ts[s[k]] && keep[1..][idx[k]] == keep[s[k]];
    }
    if keep[0] {
      var r', s' := [Prune(ts[0], q, None)] + r, [0] + s;
      forall k | 0 <= k < |s'|
        ensures s'[k] < |ts| && keep[s'[k]] && r'[k] == Prune(ts[s'[k]], q, None)
      {
        if k > 0 {
          assert s'[k] == s[k - 1] && r'[k] == r[k - 1];
        }
      }
    }
  }

  lemma {:induction false} KeptInOrder(ts: seq<Elem>, q: Query)
    ensures KeptAt(ts, q, Keeps(ts, q), PruneForest(ts, q, None), KeptIndices(ts, q))
  {
    if ts != [] {
      KeptInOrder(ts[1..], q);
      assert Keeps(ts, q)[1..] == Keeps(ts[1..], q);
      var keep, r, idx := Keeps(ts, q), PruneForest(ts[1..], q, None), KeptIndices(ts[1..], q);
      PicksCons(ts, q, keep, r, idx);
      IncreasingCons(idx);
      CoversCons(keep, idx);
      if keep[0] {
        assert PruneForest(ts, q, None) == [Prune(ts[0], q, None)] + r;
      } else {
        assert PruneForest(ts, q, None) == r;
      }
    }
  }

  /**
   * Pruning without a graft keeps exactly the non-matching siblings, each
   * pruned in turn, in their original relative order: `idx` lists their
   * positions in increasing order.
   */
  lemma RetainedInOrder(ts: seq<Elem>, q: Query)
    ensures var r, idx := PruneForest(ts, q, None), KeptIndices(ts, q);
      && |idx| == |r|
      && (forall k :: 0 <= k < |idx| ==> idx[k] < |ts| && !Matches(q, ts[idx[k]]) && r[k] == Prune(ts[idx[k]], q, None))
      && (forall k, l :: 0 <= k < l < |idx| ==> idx[k] < idx[l])
      && (forall m :: 0 <= m < |ts| && !Matches(q, ts[m]) ==> m in idx)
  {
    KeptInOrder(ts, q);
    KeepsMeans(ts, q);
  }
}
