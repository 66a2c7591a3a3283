/**
 * `insert_draft`: for each version of a revision, in the order the revision
 * store gives them, the first `/django-objects/object` element of the
 * version's serialised fragment is put in place of the document's `object`
 * elements whose `pk` and `model` attributes identify the versioned object.
 *
 * The revision store is a map from revision identifiers to version lists;
 * each version carries its content type, its primary key (already rendered as
 * the string the XPath compares with) and the fragment tree the serializer
 * produces for it.
 */
module DraftInsert {
  import opened Wrappers
  import opened ElementTree
  import opened Selectors

  type RevisionId = nat

  datatype Version = Version(appLabel: string, model: string, pk: string, fragment: Elem)

  type RevisionStore = map<RevisionId, seq<Version>>

  datatype DraftError =
    | RevisionNotFound  // `Revision.objects.get` finds no revision
    | NoDraftNode       // the fragment has no `/django-objects/object`: indexing `[0]` fails
    | TargetIsRoot      // the root element matches: it has no parent to call `replace` on

  /** `//object[@pk='<pk>' and @model='<app_label>.<model>']` for a version. */
  function TargetOf(v: Version): Query
  {
    Target(v.pk, v.appLabel + "." + v.model)
  }

  /** The first element of `ts` tagged `object`, if any. */
  function FirstObject(ts: seq<Elem>): (r: Option<Elem>)
    ensures r.Some? <==> exists i :: 0 <= i < |ts| && ts[i].tag == "object"
    ensures r.Some? ==> exists i :: (0 <= i < |ts| && ts[i] == r.value && r.value.tag == "object" &&
      forall j :: 0 <= j < i ==> ts[j].tag != "object")
  {
    if ts == [] then None
    else if ts[0].tag == "object" then Some(ts[0])
    else
      var r := FirstObject(ts[1..]);
      assert forall i :: 0 < i < |ts| ==> ts[i] == ts[1..][i - 1];
      r
  }

  /** `draft_doc.xpath('/django-objects/object')[0]`, or `None` where indexing fails. */
  function DraftNode(fragment: Elem): (r: Option<Elem>)
    ensures r.Some? <==> fragment.tag == "django-objects" && exists i :: 0 <= i < |fragment.children| && fragment.children[i].tag == "object"
    ensures r.Some? ==> r.value in fragment.children && r.value.tag == "object"
    ensures r.Some? ==> exists i :: (0 <= i < |fragment.children| && fragment.children[i] == r.value &&
      forall j :: 0 <= j < i ==> fragment.children[j].tag != "object")
  {
    if fragment.tag == "django-objects" then FirstObject(fragment.children) else None
  }

  /**
   * One pass of the outer loop: the draft node is taken from the fragment,
   * then every target is replaced by it. Since the same element is moved each
   * time, every topmost target disappears and the draft ends up in the place
   * of the last target in document order (if that one is itself topmost).
   */
  function ApplyVersion(t: Elem, v: Version): Result<Elem, DraftError>
  {
    match DraftNode(v.fragment)
    case None => Err(NoDraftNode)
    case Some(d) =>
      var q := TargetOf(v);
      var targets := Select(t, q);
      if Matches(q, t) then Err(TargetIsRoot)
      else Ok(Prune(t, q, if targets == [] then None else Some(Graft(targets[|targets| - 1].id, d))))
  }

  /** The versions applied one after the other, each to the document the previous ones left. */
  function ApplyAll(t: Elem, vs: seq<Version>): Result<Elem, DraftError>
    decreases vs
  {
    if vs == [] then Ok(t)
    else
      match ApplyVersion(t, vs[0])
      case Err(e) => Err(e)
      case Ok(t') => ApplyAll(t', vs[1..])
  }

  /** What `insert_draft` gives for a revision identifier and a parsed document. */
  function Drafted(store: RevisionStore, rev: RevisionId, doc: Elem): Result<Elem, DraftError>
  {
    if rev !in store then Err(RevisionNotFound) else ApplyAll(doc, store[rev])
  }

  function Fragments(vs: seq<Version>): seq<Elem>
  {
    if vs == [] then [] else [vs[0].fragment] + Fragments(vs[1..])
  }

  // ---------------------------------------------------------------------------
  // The source's loops
  // ---------------------------------------------------------------------------

  lemma DraftNodeInFragment(fragment: Elem, d: Elem)
    requires DraftNode(fragment) == Some(d)
    ensures Ids(d) <= Ids(fragment)
    ensures Unique(fragment) ==> Unique(d)
  {
    var k :| 0 <= k < |fragment.children| && fragment.children[k] == d;
    MemberOfForest(fragment.children, k);
  }

  /**
   * The document after the first `j` targets have been replaced: they are all
   * detached, and the draft sits where the last of them was.
   */
  function Progress(tree: Elem, targets: seq<Elem>, j: nat, d: Elem): Elem
    requires j <= |targets|
  {
    Detach(tree, IdSet(targets[..j]), if j == 0 then None else Some(Graft(targets[j - 1].id, d)))
  }

  /** Replacing the next target moves the draft there and detaches that target. */
  lemma ReplaceStep(tree: Elem, targets: seq<Elem>, j: nat, d: Elem)
    requires j < |targets| && DistinctIds(targets) && d.id !in ForestIds(tree.children)
    ensures Replace(Progress(tree, targets, j, d), targets[j], d) == Progress(tree, targets, j + 1, d)
  {
    var node, done := targets[j], IdSet(targets[..j]);
    var before := if j == 0 then None else Some(Graft(targets[j - 1].id, d));
    assert node.id !in done by {
      IdSetOfDistinct(targets, j);
    }
    assert IdSet(targets[..j + 1]) == done + {node.id} by {
      assert targets[..j + 1] == targets[..j] + [node];
      IdSetSnoc(targets[..j], node);
    }
    ReplaceAfterDetach(tree, done, before, node, d);
  }

  /**
   * The inner loop for one version: the targets are selected once, then each
   * in document order is replaced by the draft node, which lxml moves from
   * wherever it is. A target inside an already replaced one sits in a
   * detached subtree; moving the draft there takes it out of the document.
   */
  method SpliceVersion(tree: Elem, v: Version) returns (r: Result<Elem, DraftError>)
    requires Unique(tree) && Unique(v.fragment) && Ids(tree) !! Ids(v.fragment)
    ensures r == ApplyVersion(tree, v)
  {
    var q := TargetOf(v);
    var draft := DraftNode(v.fragment);
    if draft.None? {
      return Err(NoDraftNode);
    }
    var d := draft.value;
    assert d.id !in ForestIds(tree.children) by {
      DraftNodeInFragment(v.fragment, d);
      assert d.id in Ids(v.fragment);
    }
    var targets := Select(tree, q);
    assert DistinctIds(targets) by {
      SelectDistinct(tree, q);
    }
    var doc := tree;
    var j := 0;
    assert IdSet(targets[..0]) == {};
    DetachNothing(tree, None);
    while j < |targets|
      invariant 0 <= j <= |targets|
      invariant doc == Progress(tree, targets, j, d)
      invariant j > 0 ==> !Matches(q, tree)
    {
      var node := targets[j];
      if node.id == doc.id {
        SelectedRoot(tree, q, node);
        return Err(TargetIsRoot);
      }
      ReplaceStep(tree, targets, j, d);
      doc := Replace(doc, node, d);
      j := j + 1;
    }
    assert targets[..j] == targets;
    DetachSelectedIsPrune(tree, q, if targets == [] then None else Some(Graft(targets[|targets| - 1].id, d)));
    return Ok(doc);
  }

  /** A version that succeeds leaves a tree of distinct objects, drawn from the document and the fragment. */
  lemma ApplyVersionKeepsUnique(t: Elem, v: Version)
    requires Unique(t) && Unique(v.fragment) && Ids(t) !! Ids(v.fragment)
    requires ApplyVersion(t, v).Ok?
    ensures Unique(ApplyVersion(t, v).value)
    ensures Ids(ApplyVersion(t, v).value) <= Ids(t) + Ids(v.fragment)
  {
    var d := DraftNode(v.fragment).value;
    DraftNodeInFragment(v.fragment, d);
    var targets := Select(t, TargetOf(v));
    PruneKeepsUnique(t, TargetOf(v), if targets == [] then None else Some(Graft(targets[|targets| - 1].id, d)));
  }

  /**
   * The outer loop: versions in store order, each applied to the document as
   * the earlier ones left it; the first failure ends the call.
   */
  method InsertDraft(store: RevisionStore, rev: RevisionId, doc: Elem) returns (r: Result<Elem, DraftError>)
    requires rev in store ==> UniqueForest([doc] + Fragments(store[rev]))
    ensures r == Drafted(store, rev, doc)
    ensures rev !in store ==> r == Err(RevisionNotFound)
  {
    if rev !in store {
      return Err(RevisionNotFound);
    }
    var versions := store[rev];
    var tree := doc;
    var i := 0;
    assert versions[0..] == versions;
    while i < |versions|
      invariant 0 <= i <= |versions|
      invariant UniqueForest([tree] + Fragments(versions[i..]))
      invariant ApplyAll(tree, versions[i..]) == ApplyAll(doc, versions)
    {
      var v := versions[i];
      var rest := Fragments(versions[i + 1..]);
      assert versions[i..][0] == v && versions[i..][1..] == versions[i + 1..];
      assert Fragments(versions[i..]) == [v.fragment] + rest;
      UniqueForestCons(tree, [v.fragment] + rest);
      UniqueForestCons(v.fragment, rest);
      var step := SpliceVersion(tree, v);
      if step.Err? {
        return Err(step.error);
      }
      ApplyVersionKeepsUnique(tree, v);
      UniqueForestCons(step.value, rest);
      tree := step.value;
      i := i + 1;
    }
    return Ok(tree);
  }

  // ---------------------------------------------------------------------------
  // Properties of insert_draft
  // ---------------------------------------------------------------------------

  /** Versions are handled strictly in order: applying `a + b` is applying `a`, then `b` to its result. */
  lemma {:induction false} VersionsInOrder(t: Elem, a: seq<Version>, b: seq<Version>)
    ensures ApplyAll(t, a + b) == (match ApplyAll(t, a) case Err(e) => Err(e) case Ok(t') => ApplyAll(t', b))
    decreases a
  {
    if a == [] {
      assert a + b == b;
    } else {
      assert (a + b)[0] == a[0] && (a + b)[1..] == a[1..] + b;
      match ApplyVersion(t, a[0])
      case Err(e) =>
      case Ok(t') => VersionsInOrder(t', a[1..], b);
    }
  }

  /** A version whose fragment has no draft node makes the whole call fail. */
  lemma {:induction false} MissingDraftNodeFails(t: Elem, vs: seq<Version>, i: nat)
    requires i < |vs| && DraftNode(vs[i].fragment).None?
    ensures ApplyAll(t, vs).Err?
    decreases i
  {
    if i > 0 {
      match ApplyVersion(t, vs[0])
      case Err(e) =>
      case Ok(t') =>
        assert vs[1..][i - 1] == vs[i];
        MissingDraftNodeFails(t', vs[1..], i - 1);
    }
  }

  /** A version that matches no element changes nothing. */
  lemma NoTargetUnchanged(t: Elem, v: Version)
    requires DraftNode(v.fragment).Some? && Select(t, TargetOf(v)) == []
    ensures ApplyVersion(t, v) == Ok(t)
  {
    SelectExactly(t, TargetOf(v));
    assert t in Nodes(t);
    PruneUnchanged(t, TargetOf(v), None);
  }

  /**
   * With exactly one target, at position `p`: if it is the root the call
   * fails; otherwise the draft node takes its place among its siblings and
   * every position apart from `p` is unchanged.
   */
  lemma SingleTargetReplacedInPlace(t: Elem, v: Version, d: Elem, m: Elem, p: seq<nat>)
    requires Unique(t) && DraftNode(v.fragment) == Some(d)
    requires Select(t, TargetOf(v)) == [m] && At(t, p) == Some(m)
    ensures p == [] ==> ApplyVersion(t, v) == Err(TargetIsRoot)
    ensures p != [] ==> ApplyVersion(t, v) == Ok(PutAt(t, p, d))
  {
    var q := TargetOf(v);
    SelectExactly(t, q);
    assert m in Select(t, q);
    if p != [] {
      AtInNodes(t, p);
      ForestNodesIds(t.children, m);
      assert t != m;
      OnlyMatchReplacedInPlace(t, q, m, d, p);
    }
  }

  // ---------------------------------------------------------------------------
  // Scenarios
  // ---------------------------------------------------------------------------

  function KeyedObject(id: NodeId, pk: string, model: string, text: string): Elem
  {
    Elem(id, "object", map["pk" := pk, "model" := model], Some(text), [], None)
  }

  function Fragment(id: NodeId, items: seq<Elem>): Elem
  {
    Elem(id, "django-objects", map[], None, items, None)
  }

  function NewDraft(): Elem
  {
    KeyedObject(11, "3", "a.m", "new")
  }

  function ExampleVersion(): Version
  {
    Version("a", "m", "3", Fragment(10, [NewDraft()]))
  }

  function ExampleStore(): RevisionStore
  {
    map[7 := [ExampleVersion()]]
  }

  function ExampleDoc(): Elem
  {
    Elem(0, "root", map[], None,
      [KeyedObject(1, "1", "a.m", "one"), KeyedObject(2, "3", "a.m", "old"), KeyedObject(3, "3", "b.m", "other")], None)
  }

  function ExampleResult(): Elem
  {
    ExampleDoc().(children := [ExampleDoc().children[0], NewDraft(), ExampleDoc().children[2]])
  }

  /** Of the three objects only the middle one has pk 3 and model `a.m`. */
  lemma ExampleSelection()
    ensures Select(ExampleDoc(), TargetOf(ExampleVersion())) == [ExampleDoc().children[1]]
  {
    var q, ts := TargetOf(ExampleVersion()), ExampleDoc().children;
    assert q == Target("3", "a.m");
    assert !Matches(q, ts[0]) && Matches(q, ts[1]) && !Matches(q, ts[2]);
    assert ts[1..][1..][1..] == [];
    assert SelectForest(ts, q) == [ts[1]];
  }

  lemma ExampleDocUnique()
    ensures Unique(ExampleDoc())
  {
    var ts := ExampleDoc().children;
    assert ts[1..][1..][1..] == [];
    assert ForestIds(ts[2..]) == {3};
    assert ForestIds(ts[1..]) == {2, 3};
    assert ForestIds(ts) == {1, 2, 3};
    assert UniqueForest(ts[2..]);
    assert UniqueForest(ts[1..]);
  }

  /** The version replaces the middle object in place. */
  lemma ExampleVersionApplied()
    ensures ApplyVersion(ExampleDoc(), ExampleVersion()) == Ok(ExampleResult())
  {
    var draft, v, doc := NewDraft(), ExampleVersion(), ExampleDoc();
    ExampleSelection();
    ExampleDocUnique();
    assert DraftNode(v.fragment) == Some(draft);
    assert At(doc, [1]) == Some(doc.children[1]) by {
      assert [1][1..] == [];
    }
    SingleTargetReplacedInPlace(doc, v, draft, doc.children[1], [1]);
    assert PutAt(doc, [1], draft) == ExampleResult() by {
      assert [1][1..] == [];
      assert doc.children[1 := draft] == ExampleResult().children;
    }
  }

  lemma SingleVersion(t: Elem, v: Version)
    ensures ApplyAll(t, [v]) == ApplyVersion(t, v)
  {
    assert [v][1..] == [];
  }

  lemma ExampleRevisionApplied()
    ensures Drafted(ExampleStore(), 7, ExampleDoc()) == Ok(ExampleResult())
  {
    var v, doc := ExampleVersion(), ExampleDoc();
    assert ExampleStore()[7] == [v];
    ExampleVersionApplied();
    SingleVersion(doc, v);
  }

  /** A revision with one version for object 3 of `a.m`: its node is replaced in place, its siblings untouched. */
  lemma ReplacesMatchingNode()
    ensures Drafted(ExampleStore(), 7, ExampleDoc()) == Ok(ExampleResult())
    ensures Drafted(ExampleStore(), 8, ExampleDoc()) == Err(RevisionNotFound)
  {
    ExampleRevisionApplied();
    assert 8 !in ExampleStore();
  }

  /**
   * Two targets: the single draft element is moved from the first to the
   * second, so the first target is gone and the draft sits where the second was.
   */
  lemma DuplicateTargetsMoveTheDraft()
    ensures var draft := KeyedObject(11, "3", "a.m", "new");
            var v := Version("a", "m", "3", Fragment(10, [draft]));
            var doc := Elem(0, "root", map[], None,
              [KeyedObject(1, "3", "a.m", "first"), KeyedObject(2, "4", "a.m", "between"), KeyedObject(3, "3", "a.m", "second")], None);
            ApplyVersion(doc, v) == Ok(doc.(children := [doc.children[1], draft]))
  {
    var draft := KeyedObject(11, "3", "a.m", "new");
    var v := Version("a", "m", "3", Fragment(10, [draft]));
    var doc := Elem(0, "root", map[], None,
      [KeyedObject(1, "3", "a.m", "first"), KeyedObject(2, "4", "a.m", "between"), KeyedObject(3, "3", "a.m", "second")], None);
    var q := TargetOf(v);
    assert q == Target("3", "a.m");
    var ts := doc.children;
    var o1, o2, o3 := ts[0], ts[1], ts[2];
    assert !Matches(q, doc) && Matches(q, o1) && !Matches(q, o2) && Matches(q, o3);
    assert ts[1..][1..][1..] == [];
    assert Select(doc, q) == [o1, o3] by {
      assert SelectForest(ts, q) == [o1, o3];
    }
    assert DraftNode(v.fragment) == Some(draft);
    var g := Some(Graft(3, draft));
    assert Prune(o2, q, g) == o2;
    assert PruneForest(ts[1..][1..], q, g) == [draft];
    assert PruneForest(ts[1..], q, g) == [o2, draft];
    assert PruneForest(ts, q, g) == [o2, draft];
  }
}
