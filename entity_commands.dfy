/**
 * The commands of the entity extension (src/entity-extension.ts): they stage
 * their changes in the command's transaction and dispatch it once. Without a
 * dispatcher (`view == null`) a command only reports that it can run.
 */
module EntityCommands {
  import opened Wrappers
  import opened EntityTypes
  import opened Document
  import opened UniqueEntities
  import opened EditorView

  /** The nodes `updateEntityById` rewrites: entity nodes whose id is `id` (atom or not). */
  predicate Matches(n: Node, id: string): (r: bool)
    ensures r ==> IsEntity(n) && n.attrs.id == Some(id)
    ensures IsEntityAtom(n) && n.attrs.id == Some(id) ==> r
  {
    IsEntity(n) && n.attrs.id == Some(id)
  }

  /** A node after `updateEntityById(id, update)`. */
  function Rewrite(n: Node, id: string, update: EntityAttrs): (r: Node)
    ensures r.typeName == n.typeName && r.isAtom == n.isAtom && r.depth == n.depth
    ensures Matches(n, id) ==> r.attrs == WithDefaults(update)
    ensures !Matches(n, id) ==> r == n
  {
    if Matches(n, id) then n.(attrs := WithDefaults(update)) else n
  }

  /** The document after `updateEntityById(id, update)`: each node rewritten on its own. */
  function RewriteById(doc: Doc, id: string, update: EntityAttrs): (r: Doc)
    ensures |r| == |doc|
  {
    seq(|doc|, i requires 0 <= i < |doc| => Rewrite(doc[i], id, update))
  }

  /**
   * The rewrite by id touches exactly the matching nodes: each of them gets the
   * new attributes, every other node stays as it was, and the length is kept.
   */
  lemma RewriteByIdRewritesMatches(doc: Doc, id: string, update: EntityAttrs)
    ensures |RewriteById(doc, id, update)| == |doc|
    ensures forall i :: 0 <= i < |doc| && Matches(doc[i], id) ==>
      RewriteById(doc, id, update)[i] == doc[i].(attrs := WithDefaults(update))
    ensures forall i :: 0 <= i < |doc| && !Matches(doc[i], id) ==> RewriteById(doc, id, update)[i] == doc[i]
  {
  }

  /** The rewrite changes no type, atom flag or depth, so entity atoms stay free of content. */
  lemma RewriteKeepsShape(doc: Doc, id: string, update: EntityAttrs)
    requires EntityAtomsAreLeaves(doc)
    ensures EntityAtomsAreLeaves(RewriteById(doc, id, update))
  {
  }

  /** The document once the walk has passed the first `i` nodes. */
  function PartlyRewritten(doc: Doc, i: nat, id: string, update: EntityAttrs): Doc {
    seq(|doc|, k requires 0 <= k < |doc| => if k < i then Rewrite(doc[k], id, update) else doc[k])
  }

  lemma PartlyRewrittenStart(doc: Doc, id: string, update: EntityAttrs)
    ensures PartlyRewritten(doc, 0, id, update) == doc
    ensures PartlyRewritten(doc, |doc|, id, update) == RewriteById(doc, id, update)
  {
  }

  lemma PartlyRewrittenStep(doc: Doc, i: nat, id: string, update: EntityAttrs)
    requires i < |doc|
    ensures Matches(doc[i], id) ==>
      PartlyRewritten(doc, i, id, update)[i := doc[i].(attrs := WithDefaults(update))] == PartlyRewritten(doc, i + 1, id, update)
    ensures !Matches(doc[i], id) ==> PartlyRewritten(doc, i, id, update) == PartlyRewritten(doc, i + 1, id, update)
  {
  }

  /** The markup steps the walk stages, one per matching node, in document order. */
  function MarkupSteps(doc: Doc, id: string, update: EntityAttrs): (r: seq<Step>)
    ensures |r| <= |doc|
    decreases |doc|
  {
    if doc == [] then []
    else
      MarkupSteps(doc[..|doc| - 1], id, update)
      + (if Matches(doc[|doc| - 1], id) then [SetMarkup(|doc| - 1, update)] else [])
  }

  lemma MarkupStepsSnoc(doc: Doc, i: nat, id: string, update: EntityAttrs)
    requires i < |doc|
    ensures MarkupSteps(doc[..i + 1], id, update) ==
      MarkupSteps(doc[..i], id, update) + (if Matches(doc[i], id) then [SetMarkup(i, update)] else [])
  {
    assert doc[..i + 1][..i] == doc[..i];
  }

  /**
   * One step per matching node: every staged step sets, to `update`, the markup
   * of a node that matches, and no more steps are staged than there are nodes.
   */
  lemma {:induction false} MarkupStepsTargetMatches(doc: Doc, id: string, update: EntityAttrs)
    ensures |MarkupSteps(doc, id, update)| <= |doc|
    ensures forall k :: 0 <= k < |MarkupSteps(doc, id, update)| ==>
      var step := MarkupSteps(doc, id, update)[k];
      step.SetMarkup? && step.pos < |doc| && Matches(doc[step.pos], id) && step.attrs == update
    decreases |doc|
  {
    if doc != [] {
      var init := doc[..|doc| - 1];
      MarkupStepsTargetMatches(init, id, update);
      assert forall k :: 0 <= k < |init| ==> doc[k] == init[k];
    }
  }

  lemma {:induction false} NoMatchNoSteps(doc: Doc, id: string, update: EntityAttrs)
    requires forall i :: 0 <= i < |doc| ==> !Matches(doc[i], id)
    ensures MarkupSteps(doc, id, update) == []
    decreases |doc|
  {
    if doc != [] {
      NoMatchNoSteps(doc[..|doc| - 1], id, update);
    }
  }

  /**
   * The walk of `updateEntityById`: `tr.doc.descendants` visits every node of the
   * document as it was when the walk began and sets the markup of each entity node
   * whose id is `id`. Every matching node gets the new attributes and every other
   * node is left as it was.
   */
  method StageUpdates(tr: Transaction, id: string, update: EntityAttrs)
    requires tr.Valid()
    modifies tr
    ensures tr.Valid() && tr.selection == old(tr.selection)
    ensures tr.steps == old(tr.steps) + MarkupSteps(old(tr.doc), id, update)
    ensures tr.doc == RewriteById(old(tr.doc), id, update)
  {
    var walked := tr.doc;
    var i := 0;
    PartlyRewrittenStart(walked, id, update);
    while i < |walked|
      invariant 0 <= i <= |walked|
      invariant tr.Valid() && tr.selection == old(tr.selection)
      invariant tr.doc == PartlyRewritten(walked, i, id, update)
      invariant tr.steps == old(tr.steps) + MarkupSteps(walked[..i], id, update)
    {
      var node := walked[i];
      PartlyRewrittenStep(walked, i, id, update);
      MarkupStepsSnoc(walked, i, id, update);
      if node.typeName == EntityTypeName && node.attrs.id == Some(id) {
        tr.SetNodeMarkup(i, update);
        assert tr.steps == old(tr.steps) + (MarkupSteps(walked[..i], id, update) + [SetMarkup(i, update)]);
      }
      i := i + 1;
    }
    assert walked[..i] == walked;
  }

  /**
   * `updateEntityById(id, update)`: without a dispatcher, report success and stage
   * nothing; otherwise stage the rewrite of every matching entity node and dispatch
   * the transaction once. The editor then holds the rewritten document, and keeps
   * its plugin state object when the transaction holds no step.
   */
  method UpdateEntityById(tr: Transaction, view: Editor?, id: string, update: EntityAttrs) returns (handled: bool)
    requires tr.Valid()
    requires view != null ==> view.Valid() && tr.before == view.doc
    modifies tr, view
    ensures handled
    ensures view == null ==> unchanged(tr)
    ensures view != null ==>
      && tr.steps == old(tr.steps) + MarkupSteps(old(tr.doc), id, update)
      && tr.doc == RewriteById(old(tr.doc), id, update)
      && view.doc == tr.doc && view.Valid()
      && (!tr.DocChanged() ==> view.entityState == old(view.entityState))
  {
    if view == null {
      return true;
    }
    StageUpdates(tr, id, update);
    view.Dispatch(tr);
    return true;
  }

  /**
   * `createEntity(attributes)`: replace the selection with one new entity node and
   * dispatch; without a dispatcher nothing is staged. It always reports success.
   */
  method CreateEntity(tr: Transaction, view: Editor?, attributes: EntityAttrs) returns (handled: bool)
    requires tr.Valid()
    requires view != null ==> view.Valid() && tr.before == view.doc
    modifies tr, view
    ensures handled
    ensures view == null ==> unchanged(tr)
    ensures view != null ==>
      && tr.doc == WithEntityAt(old(tr.doc), old(tr.selection), attributes)
      && view.doc == tr.doc && view.Valid()
      && attributes.id in IdsOf(view.entityState.uniqueEntities)
  {
    if view != null {
      CreatedEntityIsListed(tr.doc, tr.selection, attributes);
      var entity := EntityNode(attributes, 0);
      tr.ReplaceSelectionWith(entity);
      view.Dispatch(tr);
    }
    return true;
  }

  /** The document `createEntity` dispatches: the selection replaced by a new entity node. */
  function WithEntityAt(doc: Doc, sel: Selection, attributes: EntityAttrs): (r: Doc)
    requires SelectionInRange(sel, doc)
    ensures |r| == |doc| - (sel.to - sel.from) + 1
  {
    doc[..sel.from] + [EntityNode(attributes, sel.depth)] + doc[sel.to..]
  }

  /**
   * The entity `createEntity` inserts at a selection the host can produce is in
   * the unique list of the new document, under the id it was created with.
   */
  lemma CreatedEntityIsListed(doc: Doc, sel: Selection, attributes: EntityAttrs)
    requires SelectionFits(sel, doc) && EntityAtomsAreLeaves(doc)
    ensures attributes.id in IdsOf(UniqueEntitiesOf(WithEntityAt(doc, sel, attributes)))
  {
    var r := WithEntityAt(doc, sel, attributes);
    ReplaceKeepsShape(doc, sel, EntityNode(attributes, sel.depth));
    UniqueIdsOfLeafEntities(r);
    assert r[sel.from] == EntityNode(attributes, sel.depth);
  }

  // ---------------------------------------------------------------------------
  // What the commands do to the unique-entity list.

  /** The unique list after every entry with id `id` is replaced by `v`. */
  function ReplaceId(es: seq<EntityAttrs>, id: string, v: EntityAttrs): (r: seq<EntityAttrs>)
    ensures |r| == |es|
  {
    seq(|es|, i requires 0 <= i < |es| => if es[i].id == Some(id) then v else es[i])
  }

  /** An id that matches no entity node leaves the document as it was. */
  lemma UnmatchedIdChangesNothing(doc: Doc, id: string, update: EntityAttrs)
    requires forall i :: 0 <= i < |doc| ==> !Matches(doc[i], id)
    ensures RewriteById(doc, id, update) == doc
    ensures MarkupSteps(doc, id, update) == []
  {
    NoMatchNoSteps(doc, id, update);
  }
  /**
   * `setNodeMarkup` replaces all the attributes: an update that gives no id leaves
   * every matching node with a `null` id.
   */
  lemma UpdateWithoutIdClearsId(doc: Doc, id: string, update: EntityAttrs)
    requires update.id.None?
    ensures forall i :: 0 <= i < |doc| && Matches(doc[i], id) ==> RewriteById(doc, id, update)[i].attrs.id.None?
  {
  }


  lemma {:induction false} ScanOfRewrite(nodes: seq<Node>, skipBelow: Option<nat>, id: string, update: EntityAttrs)
    ensures ScanFrom(RewriteById(nodes, id, update), skipBelow) == ReplaceId(ScanFrom(nodes, skipBelow), id, WithDefaults(update))
    decreases |nodes|
  {
    var v := WithDefaults(update);
    if nodes != [] {
      var r := RewriteById(nodes, id, update);
      assert r[1..] == RewriteById(nodes[1..], id, update);
      assert r[0].depth == nodes[0].depth && IsEntityAtom(r[0]) == IsEntityAtom(nodes[0]);
      ScanOfRewrite(nodes[1..], skipBelow, id, update);
      ScanOfRewrite(nodes[1..], Some(nodes[0].depth), id, update);
      ScanOfRewrite(nodes[1..], None, id, update);
      if !(skipBelow.Some? && nodes[0].depth > skipBelow.value) && IsEntityAtom(nodes[0]) {
        var rest := ScanFrom(nodes[1..], Some(nodes[0].depth));
        assert ReplaceId([nodes[0].attrs] + rest, id, v) == [r[0].attrs] + ReplaceId(rest, id, v);
      }
    }
  }

  lemma {:induction false} ReduceOfReplace(atoms: seq<EntityAttrs>, id: string, v: EntityAttrs)
    requires v.id == Some(id)
    ensures Reduce(ReplaceId(atoms, id, v)).keys == Reduce(atoms).keys
    ensures forall k :: k in Reduce(atoms).entries ==>
      Reduce(ReplaceId(atoms, id, v)).entries[k] == (if k == Some(id) then v else Reduce(atoms).entries[k])
    decreases |atoms|
  {
    if atoms != [] {
      var init := atoms[..|atoms| - 1];
      assert ReplaceId(atoms, id, v)[..|atoms| - 1] == ReplaceId(init, id, v);
      ReduceOfReplace(init, id, v);
    }
  }

  /**
   * Updating the entities with id `id` to attributes that keep that id changes the
   * unique list in place: the same ids in the same order, with the entry for `id`
   * (if there is one) now holding the new attributes.
   */
  lemma UpdateKeepsUniqueOrder(doc: Doc, id: string, update: EntityAttrs)
    requires update.id == Some(id)
    ensures UniqueEntitiesOf(RewriteById(doc, id, update)) == ReplaceId(UniqueEntitiesOf(doc), id, WithDefaults(update))
  {
    var v := WithDefaults(update);
    var atoms := EntityAtoms(doc);
    ScanOfRewrite(doc, None, id, update);
    ReduceOfReplace(atoms, id, v);
    ReduceDescribed(atoms);
    var m, m' := Reduce(atoms), Reduce(ReplaceId(atoms, id, v));
    forall i | 0 <= i < |m.keys| ensures m.entries[m.keys[i]].id == m.keys[i] {
      assert m.keys[i] in m.entries;
    }
  }
}
