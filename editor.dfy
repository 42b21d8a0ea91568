/**
 * The host editor that runs the entity plugin: it holds the document, the
 * selection and the plugin state, and a dispatched transaction replaces the
 * document and passes the old plugin state through `apply`.
 */
module EditorView {
  import opened EntityTypes
  import opened Document
  import opened UniqueEntities
  import opened SameEntities
  import opened EntityPlugin

  class Editor {
    var doc: Doc
    var selection: Selection
    var entityState: EntityState

    /** The plugin state always describes the current document. */
    ghost predicate Valid()
      reads this
    {
      && SelectionFits(selection, doc) && EntityAtomsAreLeaves(doc)
      && entityState.uniqueEntities == UniqueEntitiesOf(doc)
    }

    /** Creating the editor state runs the plugin's `init`. */
    constructor (doc: Doc, selection: Selection)
      requires SelectionFits(selection, doc) && EntityAtomsAreLeaves(doc)
      ensures Valid()
      ensures this.doc == doc && this.selection == selection
    {
      var state := Init(doc);
      this.doc := doc;
      this.selection := selection;
      this.entityState := state;
    }

    /** `state.tr`: a transaction that starts from the current document and selection. */
    method CreateTransaction() returns (tr: Transaction)
      requires Valid()
      ensures fresh(tr) && tr.Valid() && !tr.DocChanged()
      ensures tr.before == doc && tr.doc == doc && tr.selection == selection
    {
      tr := new Transaction(doc, selection);
    }

    /**
     * `dispatch(tr)` for a transaction built on the current document: the editor
     * takes the transaction's document and selection and the plugin state that
     * `apply` returns, so the plugin state still describes the document.
     */
    method Dispatch(tr: Transaction)
      requires Valid() && tr.Valid() && tr.before == doc
      modifies this
      ensures Valid()
      ensures doc == tr.doc && selection == tr.selection
      ensures !tr.DocChanged() ==> doc == old(doc) && entityState == old(entityState)
      ensures UniqueEntitiesAreSame(UniqueEntitiesOf(tr.doc), old(entityState).uniqueEntities) ==>
        entityState == old(entityState)
      ensures !UniqueEntitiesAreSame(UniqueEntitiesOf(tr.doc), old(entityState).uniqueEntities) ==>
        fresh(entityState)
    {
      var state := Apply(tr, entityState);
      doc := tr.doc;
      selection := tr.selection;
      entityState := state;
    }
  }
}
