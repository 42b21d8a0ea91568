/**
 * The behaviour the extension's tests describe, stated for the
 * documents those tests build: `doc(p(entity(item1), entity(item2), entity(item1)))`
 * and `doc(p(''))`.
 */
module EntityScenarios {
  import opened Wrappers
  import opened EntityTypes
  import opened Document
  import opened UniqueEntities
  import opened EditorView
  import opened EntityCommands

  function Paragraph(): Node {
    Node("paragraph", false, EntityAttrs(None, None), 0)
  }

  /** A paragraph holding entity markers with the given attributes, one after the other. */
  function ParagraphOf(items: seq<EntityAttrs>): (doc: Doc)
    ensures |doc| == |items| + 1 && doc[0] == Paragraph()
    ensures forall i :: 0 <= i < |items| ==> doc[i + 1] == EntityNode(items[i], 1)
  {
    [Paragraph()] + seq(|items|, i requires 0 <= i < |items| => EntityNode(items[i], 1))
  }

  /** A run of entity markers side by side is recorded marker by marker. */
  lemma {:induction false} ScanOfMarkers(nodes: seq<Node>, skipBelow: Option<nat>)
    requires forall i :: 0 <= i < |nodes| ==> IsEntityAtom(nodes[i]) && nodes[i].depth == 1
    requires skipBelow == None || skipBelow == Some(1)
    ensures ScanFrom(nodes, skipBelow) == seq(|nodes|, i requires 0 <= i < |nodes| => nodes[i].attrs)
    decreases |nodes|
  {
    if nodes != [] {
      ScanOfMarkers(nodes[1..], Some(1));
    }
  }

  /** The markers of a paragraph are recorded in order. */
  lemma EntityAtomsOfParagraph(items: seq<EntityAttrs>)
    requires forall i :: 0 <= i < |items| ==> items[i].name.Some?
    ensures EntityAtoms(ParagraphOf(items)) == items
  {
    var doc := ParagraphOf(items);
    ScanOfMarkers(doc[1..], None);
  }

  lemma ReduceOfOne(item1: EntityAttrs)
    ensures Reduce([item1]).keys == [item1.id] && Reduce([item1]).entries[item1.id] == item1
  {
    ReduceSnoc([], item1);
    assert [] + [item1] == [item1];
  }

  lemma ReduceOfTwo(item1: EntityAttrs, item2: EntityAttrs)
    requires item1.id != item2.id
    ensures Reduce([item1, item2]).keys == [item1.id, item2.id]
    ensures Reduce([item1, item2]).entries[item1.id] == item1 && Reduce([item1, item2]).entries[item2.id] == item2
  {
    ReduceOfOne(item1);
    var m1 := Reduce([item1]);
    assert m1.entries.Keys == {item1.id};
    ReduceSnoc([item1], item2);
    assert [item1] + [item2] == [item1, item2];
    assert Reduce([item1, item2]) == OrderedMap(m1.keys + [item2.id], m1.entries[item2.id := item2]);
  }

  lemma ReduceOfRepeat(item1: EntityAttrs, item2: EntityAttrs)
    requires item1.id != item2.id
    ensures UniqueOf([item1, item2, item1]) == [item1, item2]
  {
    ReduceOfTwo(item1, item2);
    ReduceSnoc([item1, item2], item1);
    assert [item1, item2] + [item1] == [item1, item2, item1];
    var m3 := Reduce([item1, item2, item1]);
    assert m3.keys == [item1.id, item2.id] && m3.entries[item1.id] == item1 && m3.entries[item2.id] == item2;
    assert Values(m3)[0] == item1 && Values(m3)[1] == item2;
  }

  /** Entities `[e1, e2, e1]` reduce to `[e1, e2]`: first-seen order, one entry per id. */
  lemma DeduplicatesEntities(item1: EntityAttrs, item2: EntityAttrs)
    requires item1.id.Some? && item2.id.Some? && item1.id != item2.id
    requires item1.name.Some? && item2.name.Some?
    ensures UniqueEntitiesOf(ParagraphOf([item1, item2, item1])) == [item1, item2]
  {
    EntityAtomsOfParagraph([item1, item2, item1]);
    ReduceOfRepeat(item1, item2);
  }

  /** For one id the name of the last marker wins: `[(1, x), (1, y)]` reduces to `[(1, y)]`. */
  lemma LastNameWins(id: string, x: string, y: string)
    ensures UniqueEntitiesOf(ParagraphOf([EntityAttrs(Some(id), Some(x)), EntityAttrs(Some(id), Some(y))]))
      == [EntityAttrs(Some(id), Some(y))]
  {
    var first, second := EntityAttrs(Some(id), Some(x)), EntityAttrs(Some(id), Some(y));
    EntityAtomsOfParagraph([first, second]);
    ReduceSnoc([], first);
    assert [] + [first] == [first];
    var m1 := MapSet(Reduce([]), first.id, first);
    ReduceSnoc([first], second);
    assert [first] + [second] == [first, second];
    var m2 := MapSet(m1, second.id, second);
    assert m2.keys == [first.id] && m2.entries == map[first.id := second];
    assert Reduce([first, second]) == m2;
  }

  /**
   * Creating an entity in an empty paragraph dispatches a document whose unique
   * entities are exactly `[item]`.
   */
  method CreatesAnEntity(item: EntityAttrs) returns (handled: bool, unique: seq<EntityAttrs>)
    requires item.name.Some?
    ensures handled && unique == [item]
  {
    var view := new Editor([Paragraph()], Selection(1, 1, 1));
    var tr := view.CreateTransaction();
    handled := CreateEntity(tr, view, item);
    unique := view.entityState.uniqueEntities;
    assert view.doc == ParagraphOf([item]);
    EntityAtomsOfParagraph([item]);
    assert [item][..0] == [];
  }

  /**
   * `updateEntityById(item1.id, {...item1, name})` on `[e1, e2, e1]` renames both
   * markers of `item1` and leaves the marker of `item2` alone.
   */
  method UpdatesAllEntitiesWithTheSameId(item1: EntityAttrs, item2: EntityAttrs, name: string)
    returns (handled: bool, names: seq<Option<string>>)
    requires item1.id.Some? && item2.id.Some? && item1.id != item2.id
    requires item1.name.Some? && item2.name.Some?
    ensures handled && names == [Some(name), item2.name, Some(name)]
  {
    var view := new Editor(ParagraphOf([item1, item2, item1]), Selection(1, 1, 1));
    var tr := view.CreateTransaction();
    RewriteByIdRewritesMatches(view.doc, item1.id.value, item1.(name := Some(name)));
    handled := UpdateEntityById(tr, view, item1.id.value, item1.(name := Some(name)));
    names := [view.doc[1].attrs.name, view.doc[2].attrs.name, view.doc[3].attrs.name];
  }

  /** `updateEntityById('other', …)` where no marker has that id changes no marker and keeps the plugin state. */
  method IgnoresUpdatesOfMissingEntities(item1: EntityAttrs, other: string, update: EntityAttrs)
    returns (handled: bool, docAfter: Doc, sameState: bool)
    requires item1.id != Some(other)
    ensures handled && docAfter == ParagraphOf([item1]) && sameState
  {
    var view := new Editor(ParagraphOf([item1]), Selection(1, 1, 1));
    var before := view.entityState;
    var tr := view.CreateTransaction();
    UnmatchedIdChangesNothing(view.doc, other, update);
    handled := UpdateEntityById(tr, view, other, update);
    docAfter := view.doc;
    sameState := view.entityState == before;
  }
}
