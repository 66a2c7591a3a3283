# Draft preview tree transforms of django-easymode

This project models the two XML tree transforms of easymode's draft preview
(`easymode/easypublisher/utils.py`) and proves properties about them:

- `filter_unpublished` detaches every `object` element that has a direct
  `field` child named `published` whose text is `False`. Each one goes with
  its subtree and its tail.
- `insert_draft` goes through the versions of a django-reversion revision. For
  each version it takes the first `/django-objects/object` element of the
  version's serialised fragment. It then puts that element in place of every
  `object` whose `pk` and `model` attributes name the versioned object. Since
  it is one element, moved by each `replace`, it ends up in one place at most
  (see below).

The document is an already parsed lxml tree (`ElementTree.Elem`). Every
element carries an identity (`id`), which stands for the lxml object. An
XPath result is a list of element objects computed once, before the loop
changes the tree. A tree whose elements are distinct objects satisfies
`Unique`.

Both loops are methods. Each method is proved equal to a recursive
specification function:

- `UnpublishedFilter.FilterUnpublished` equals `Filtered`, which is
  `Selectors.Prune` with the `Unpublished` query;
- `DraftInsert.SpliceVersion` equals `ApplyVersion`;
- `DraftInsert.InsertDraft` equals `Drafted`.

The properties are then lemmas about those functions.

Modules:

- `Wrappers` — `Option` and `Result`.
- `ElementTree` — elements and their identities, positions (`At`, `PutAt`),
  and lxml's `remove` and `replace` as `Detach` by identity.
- `Selectors` — the two XPath expressions, hard-coded as predicates.
  `Select` is the XPath result in document order. `Prune` drops the matches
  below the root and optionally grafts one element in the place of one
  match. Lemmas relate the two.
- `UnpublishedFilter` — `filter_unpublished`.
- `DraftInsert` — `insert_draft`.

Behaviour worth knowing:

- **One draft element, moved.** Each match does not get its own copy. The
  same `draft_node` object is passed to every `replace` call, and lxml moves
  an element that already has a parent.
  - The model gives the draft one place only.
  - With several matches, every topmost target disappears.
  - The draft ends up where the last target in document order was (see
    `DraftInsert.DuplicateTargetsMoveTheDraft`), provided that target is
    topmost.
  - When the last target lies inside an earlier target's subtree, the draft
    is moved into that detached subtree and is no longer in the document.
- **Only `object` elements.** The unpublished query is
  `//object[field[...]]`. An element with another tag is never removed,
  whatever its fields say.
- **`text() = 'False'`.** This compares each text node of the field with
  `False`. The field's own text and the tail of any of its children are the
  text nodes (`Selectors.HasTextNode`).
- **A matching root element.** The root has no parent, so `getparent()`
  returns `None` and the call raises. This is the error
  `RootHasNoParent` for the filter and `TargetIsRoot` for the draft.
- **Fragment with no draft node.** If the fragment has no
  `/django-objects/object`, indexing `[0]` raises. This is the error
  `NoDraftNode`.
- **Unknown revision.** A revision identifier that is not in the store is
  the error `RevisionNotFound`. Nothing is parsed after it.

## Model

| member | source | states |
|---|---|---|
| UnpublishedFilter.FilterUnpublished | easymode/easypublisher/utils.py:67-72 | The single-pass loop over the selection, removing each selected element from its parent (removal from an already detached subtree changes nothing), gives exactly the recursive pruning `Filtered`, or the root-has-no-parent error when the root itself is selected |
| UnpublishedFilter.NothingUnpublishedRemains | easymode/easypublisher/utils.py:67-70 | After filtering, no element anywhere in the document matches the unpublished query |
| UnpublishedFilter.SelectedSubtreeGone | easymode/easypublisher/utils.py:69-70 | Every element of a selected element's subtree is gone from the result, including ones that were not selected themselves |
| UnpublishedFilter.PublishedDocumentUnchanged | easymode/easypublisher/utils.py:67-70 | A document in which no element matches comes back unchanged |
| UnpublishedFilter.FilterIdempotent | easymode/easypublisher/utils.py:67-70 | Filtering the result of a successful filter gives the same result |
| UnpublishedFilter.DocumentedExample | easymode/easypublisher/utils.py:50-61 | The documented example: the `published=False` objects go, with the nested `koe` object and their tails; the `published=True` object and the `koe=False` object stay, with their newline tails |
| Selectors.SelectExactly | easymode/easypublisher/utils.py:67 | An element is selected exactly when it is in the document and matches the query; for `Unpublished` that means it is an `object` with a direct `field` child whose `name` is `published` and which has a text node `False` |
| Selectors.SelectDistinct | easymode/easypublisher/utils.py:40 | The XPath result over a tree of distinct objects lists each object once, and only objects of the tree |
| Selectors.DetachIsPrune | easymode/easypublisher/utils.py:69-70 | Detaching by identity a set that agrees with the query below the root is the recursive "drop matching children, keep and recurse into the others" |
| Selectors.RetainedInOrder | easymode/easypublisher/utils.py:61-70 | The kept siblings are exactly the non-matching ones, each pruned, in their original relative order |
| Selectors.PruneKeepsUnique | easymode/easypublisher/utils.py:41 | Pruning with a graft keeps the elements distinct objects: the grafted element appears at most once, and nothing else is added |
| Selectors.OnlyMatchReplacedInPlace | easymode/easypublisher/utils.py:40-41 | When one element below the root is the only match, grafting onto it replaces it at its position and leaves every other position unchanged |
| ElementTree.PutAt | easymode/easypublisher/utils.py:41 | Putting an element at a position puts it there; below the root, the root keeps its identity, tag, attributes, text, tail and number of children; every position not on the same path is unchanged |
| ElementTree.PutAtKeepsAncestors | easymode/easypublisher/utils.py:41 | Every element on the path above the replaced position keeps its identity, tag, attributes, text and tail: `replace` changes only a parent's child list |
| ElementTree.RemoveTakesSubtree | easymode/easypublisher/utils.py:70 | `parent.remove(node)` on a tree of distinct objects takes away exactly the identities of `node`'s subtree, and the rest stay distinct objects |
| ElementTree.DetachThenDetach | easymode/easypublisher/utils.py:69-70 | Removing one set of elements and then another (possibly with a graft) is the same as removing both sets at once, so the loop's removals one by one add up to a single detach of all selected elements |
| ElementTree.ReplaceAfterDetach | easymode/easypublisher/utils.py:41 | `parent.replace(node, draft)` moves the draft: it leaves the place an earlier `replace` gave it and takes the place of `node`, and `node` is detached |
| DraftInsert.FirstObject | easymode/easypublisher/utils.py:39 | The result exists exactly when some element is tagged `object`, and it is the first such element |
| DraftInsert.DraftNode | easymode/easypublisher/utils.py:39 | `/django-objects/object[0]` exists exactly when the fragment root is `django-objects` with an `object` child, and it is the first child tagged `object` |
| DraftInsert.SpliceVersion | easymode/easypublisher/utils.py:33-41 | The inner loop (take the draft node, replace every target in turn, moving the draft) gives exactly `ApplyVersion`, including the no-draft-node and target-is-root errors |
| DraftInsert.ApplyVersionKeepsUnique | easymode/easypublisher/utils.py:39-41 | A successful version leaves a tree of distinct objects, drawn from the document and the fragment |
| DraftInsert.InsertDraft | easymode/easypublisher/utils.py:20-43 | The outer loop gives exactly `Drafted`: an unknown revision is an error before anything else, and otherwise the versions are applied in store order |
| DraftInsert.VersionsInOrder | easymode/easypublisher/utils.py:24 | Applying the versions `a + b` is applying `a` and then `b` to its result; a failure in `a` ends the call |
| DraftInsert.MissingDraftNodeFails | easymode/easypublisher/utils.py:39 | A version whose fragment has no draft node makes the whole call fail |
| DraftInsert.NoTargetUnchanged | easymode/easypublisher/utils.py:40-41 | A version that matches no element leaves the document unchanged |
| DraftInsert.SingleTargetReplacedInPlace | easymode/easypublisher/utils.py:33-41 | With exactly one target: if it is the root, the call fails; otherwise the draft node takes its position and every position apart from it is unchanged |
| DraftInsert.ReplacesMatchingNode | easymode/easypublisher/utils.py:20-41 | A concrete revision replaces the object with the right pk and model (and not the one with the same pk and another model) in place; an unknown revision fails |
| DraftInsert.DuplicateTargetsMoveTheDraft | easymode/easypublisher/utils.py:39-41 | With two targets, the single draft element is moved: the first target disappears and the draft sits where the second one was |

## Left out

- Parsing and serialisation (`etree.fromstring`, `etree.tostring`, utils.py:21, 37, 43, 68, 72) are lxml's. The model works on parsed trees and compares trees, not strings.
- The general XPath engine is not modelled. The two expressions are hard-coded as predicates in `Selectors`.
- The `%` interpolation that builds the target expression (utils.py:33-34) is not modelled. The pk is taken as the string the expression compares with. A pk containing a quote character would change the expression.
- The Django ORM and django-reversion lookups are left out: `Revision.objects.get`, `version_set.all()`, `get_object_version().object` and `content_type`. They are the revision store, `map<RevisionId, seq<Version>>`. Each version carries its app label, model, pk and fragment tree.
- `RecursiveXmlSerializer` (utils.py:7, 22, 36) is not part of this model. Each version carries the fragment tree the serializer would produce for it.
- The errors are values of `FilterError` and `DraftError`. The Python exception types (`DoesNotExist`, `IndexError`, `AttributeError`) are not modelled.
- Whole-call proofs assume that the document's and the fragments' elements are distinct objects (`Unique`), which holds for any freshly parsed tree.
