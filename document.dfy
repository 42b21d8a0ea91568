/**
 * The part of the host document model that the entity extension relies on: a
 * document walked in order, entity nodes built from the node schema, and
 * transactions that stage node rewrites and inserts before they are dispatched.
 *
 * A document is the sequence of the nodes that `descendants` visits, in document
 * order and without the root, each with its depth below the root; a node's
 * position is its index in that sequence. The children of a node are the nodes
 * after it that are deeper than it, up to the next node that is not.
 */
module Document {
  import opened Wrappers
  import opened EntityTypes

  /** `EntityExtension.name`: the node type name of an entity marker. */
  const EntityTypeName: string := "entity"

  datatype Node = Node(typeName: string, isAtom: bool, attrs: EntityAttrs, depth: nat)

  type Doc = seq<Node>

  predicate IsEntity(n: Node) {
    n.typeName == EntityTypeName
  }

  /** The nodes `getUniqueEntitiesFromDoc` records: atoms of the entity type. */
  predicate IsEntityAtom(n: Node) {
    n.isAtom && IsEntity(n)
  }

  /**
   * The node schema's attribute defaults, applied whenever an entity node is
   * created or its markup is set: an absent id becomes `null`, an absent name `''`.
   */
  function WithDefaults(given: EntityAttrs): (attrs: EntityAttrs)
    ensures attrs.id == given.id
    ensures attrs.name.Some?
    ensures given.name.Some? ==> attrs == given
    ensures given.name.None? ==> attrs.name == Some("")
  {
    EntityAttrs(given.id, if given.name.Some? then given.name else Some(""))
  }

  /** `this.type.create(attributes)`, placed at `depth`: an atomic entity node. */
  function EntityNode(attributes: EntityAttrs, depth: nat): (n: Node)
    ensures IsEntityAtom(n) && n.depth == depth
    ensures n.attrs == WithDefaults(attributes)
  {
    Node(EntityTypeName, true, WithDefaults(attributes), depth)
  }

  /**
   * No node lies inside an entity atom: the default node spec (no override) gives
   * the entity node no content, so the node after an entity atom is never deeper
   * than it.
   */
  ghost predicate EntityAtomsAreLeaves(doc: Doc) {
    forall i :: 0 <= i < |doc| - 1 ==> IsEntityAtom(doc[i]) ==> doc[i + 1].depth <= doc[i].depth
  }

  /** A selected range `[from, to)` of positions; inline content there sits at `depth`. */
  datatype Selection = Selection(from: nat, to: nat, depth: nat)

  predicate SelectionInRange(sel: Selection, doc: Doc) {
    sel.from <= sel.to <= |doc|
  }

  /**
   * A selection the host can produce: a range of the document whose depth agrees
   * with its surroundings. The node after the range is a later sibling or lies
   * further out, so it is not deeper; an entity atom just before the range has no
   * content, so the range is not deeper than it.
   */
  predicate SelectionFits(sel: Selection, doc: Doc) {
    && SelectionInRange(sel, doc)
    && (sel.to < |doc| ==> doc[sel.to].depth <= sel.depth)
    && (0 < sel.from && IsEntityAtom(doc[sel.from - 1]) ==> sel.depth <= doc[sel.from - 1].depth)
  }

  /**
   * Replacing a fitting selection by a node at the selection's depth keeps entity
   * atoms free of content, and the position just after the node fits the result.
   */
  lemma ReplaceKeepsShape(doc: Doc, sel: Selection, node: Node)
    requires SelectionFits(sel, doc) && EntityAtomsAreLeaves(doc) && node.depth == sel.depth
    ensures EntityAtomsAreLeaves(doc[..sel.from] + [node] + doc[sel.to..])
    ensures SelectionFits(Selection(sel.from + 1, sel.from + 1, sel.depth), doc[..sel.from] + [node] + doc[sel.to..])
  {
    var r := doc[..sel.from] + [node] + doc[sel.to..];
    assert |r| == sel.from + 1 + (|doc| - sel.to);
    forall i | 0 <= i < |r| - 1 && IsEntityAtom(r[i])
      ensures r[i + 1].depth <= r[i].depth
    {
      if i + 1 < sel.from {
        assert r[i] == doc[i] && r[i + 1] == doc[i + 1];
      } else if i + 1 == sel.from {
        assert r[i] == doc[i] && r[i + 1] == node;
      } else if i == sel.from {
        assert r[i] == node && r[i + 1] == doc[sel.to];
      } else {
        var j := sel.to + (i - sel.from - 1);
        assert r[i] == doc[j] && r[i + 1] == doc[j + 1];
      }
    }
    if sel.from + 1 < |r| {
      assert r[sel.from + 1] == doc[sel.to];
    }
    assert r[sel.from] == node;
  }

  /** Setting a node's markup changes no type, atom flag or depth, so the shape is kept. */
  lemma MarkupKeepsShape(doc: Doc, sel: Selection, pos: nat, attrs: EntityAttrs)
    requires SelectionFits(sel, doc) && EntityAtomsAreLeaves(doc) && pos < |doc|
    ensures EntityAtomsAreLeaves(doc[pos := doc[pos].(attrs := attrs)])
    ensures SelectionFits(sel, doc[pos := doc[pos].(attrs := attrs)])
  {
    var r := doc[pos := doc[pos].(attrs := attrs)];
    assert forall i :: 0 <= i < |doc| ==> IsEntityAtom(r[i]) == IsEntityAtom(doc[i]) && r[i].depth == doc[i].depth;
  }

  /** A transaction step: a node markup change, or the replacement of a range by one node. */
  datatype Step =
    | SetMarkup(pos: nat, attrs: EntityAttrs)
    | ReplaceWith(from: nat, to: nat, node: Node)

  /** The document a step produces, or `None` when the step does not fit the document. */
  function ApplyStep(doc: Doc, step: Step): (r: Option<Doc>)
    ensures r.Some? <==> (if step.SetMarkup? then step.pos < |doc| else step.from <= step.to <= |doc|)
    ensures r.Some? && step.SetMarkup? ==>
      |r.value| == |doc| &&
      r.value[step.pos] == doc[step.pos].(attrs := WithDefaults(step.attrs)) &&
      forall i :: 0 <= i < |doc| && i != step.pos ==> r.value[i] == doc[i]
  {
    match step
    case SetMarkup(pos, attrs) =>
      if pos < |doc| then Some(doc[pos := doc[pos].(attrs := WithDefaults(attrs))]) else None
    case ReplaceWith(from, to, node) =>
      if from <= to <= |doc| then Some(doc[..from] + [node] + doc[to..]) else None
  }

  /** The document after the steps in order, or `None` as soon as one does not fit. */
  function ApplySteps(doc: Doc, steps: seq<Step>): Option<Doc>
    decreases |steps|
  {
    if steps == [] then Some(doc)
    else
      match ApplyStep(doc, steps[0])
      case None => None
      case Some(next) => ApplySteps(next, steps[1..])
  }

  /** Markup steps only change attributes: when they all fit, the document keeps its length. */
  lemma {:induction false} MarkupStepsKeepLength(doc: Doc, steps: seq<Step>)
    requires forall k :: 0 <= k < |steps| ==> steps[k].SetMarkup?
    ensures ApplySteps(doc, steps).Some? ==> |ApplySteps(doc, steps).value| == |doc|
    decreases |steps|
  {
    if steps != [] && ApplyStep(doc, steps[0]).Some? {
      assert forall k :: 0 <= k < |steps| - 1 ==> steps[1..][k] == steps[k + 1];
      MarkupStepsKeepLength(ApplyStep(doc, steps[0]).value, steps[1..]);
    }
  }

  lemma {:induction false} ApplyStepsSnoc(doc: Doc, steps: seq<Step>, step: Step, mid: Doc)
    requires ApplySteps(doc, steps) == Some(mid)
    ensures ApplySteps(doc, steps + [step]) == ApplyStep(mid, step)
    decreases |steps|
  {
    if steps == [] {
      assert [step][1..] == [];
    } else {
      assert (steps + [step])[0] == steps[0];
      assert (steps + [step])[1..] == steps[1..] + [step];
      ApplyStepsSnoc(ApplyStep(doc, steps[0]).value, steps[1..], step, mid);
    }
  }

  /**
   * A transaction: the document it started from, the steps staged so far and the
   * document they produce, and the selection mapped through them. A transaction
   * changed the document exactly when it holds at least one step.
   */
  class Transaction {
    const before: Doc
    var doc: Doc
    var steps: seq<Step>
    var selection: Selection

    ghost predicate Valid()
      reads this
    {
      ApplySteps(before, steps) == Some(doc) && SelectionFits(selection, doc) && EntityAtomsAreLeaves(doc)
    }

    /** `tr.docChanged`: a transaction that did not change the document still holds the one it started from. */
    predicate DocChanged(): (r: bool)
      reads this
      ensures Valid() && !r ==> doc == before
    {
      |steps| > 0
    }

    /** `state.tr`: an empty transaction on `doc`. */
    constructor (doc: Doc, selection: Selection)
      requires SelectionFits(selection, doc) && EntityAtomsAreLeaves(doc)
      ensures Valid() && !DocChanged()
      ensures this.before == doc && this.doc == doc && this.selection == selection
    {
      this.before := doc;
      this.doc := doc;
      this.steps := [];
      this.selection := selection;
    }

    /** `tr.setNodeMarkup(pos, undefined, attrs)`: give the node at `pos` the attributes `attrs`. */
    method SetNodeMarkup(pos: nat, attrs: EntityAttrs)
      requires Valid() && pos < |doc|
      modifies this
      ensures Valid() && DocChanged()
      ensures steps == old(steps) + [SetMarkup(pos, attrs)]
      ensures doc == old(doc)[pos := old(doc)[pos].(attrs := WithDefaults(attrs))]
      ensures selection == old(selection)
    {
      ApplyStepsSnoc(before, steps, SetMarkup(pos, attrs), doc);
      MarkupKeepsShape(doc, selection, pos, WithDefaults(attrs));
      steps := steps + [SetMarkup(pos, attrs)];
      doc := doc[pos := doc[pos].(attrs := WithDefaults(attrs))];
    }

    /**
     * `tr.replaceSelectionWith(node)`: the selected range is replaced by `node`,
     * placed at the selection's depth, and the selection moves to just after it.
     */
    method ReplaceSelectionWith(node: Node)
      requires Valid()
      modifies this
      ensures Valid() && DocChanged()
      ensures steps == old(steps) + [ReplaceWith(old(selection).from, old(selection).to, node.(depth := old(selection).depth))]
      ensures doc == old(doc)[..old(selection).from] + [node.(depth := old(selection).depth)] + old(doc)[old(selection).to..]
      ensures selection == Selection(old(selection).from + 1, old(selection).from + 1, old(selection).depth)
    {
      var placed := node.(depth := selection.depth);
      var step := ReplaceWith(selection.from, selection.to, placed);
      ApplyStepsSnoc(before, steps, step, doc);
      ReplaceKeepsShape(doc, selection, placed);
      steps := steps + [step];
      doc := doc[..selection.from] + [placed] + doc[selection.to..];
      selection := Selection(selection.from + 1, selection.from + 1, selection.depth);
    }
  }
}
