/**
 * The plugin state of the entity extension (`createPlugin` in
 * src/entity-extension.ts): the unique-entity list of the current document,
 * whose object is kept when its content does not change so that readers see the
 * same reference and do not re-render.
 */
module EntityPlugin {
  import opened EntityTypes
  import opened Document
  import opened UniqueEntities
  import opened SameEntities

  /** `EntityState`: one immutable list of unique entities per state object. */
  class EntityState {
    const uniqueEntities: seq<EntityAttrs>

    constructor (uniqueEntities: seq<EntityAttrs>)
      ensures this.uniqueEntities == uniqueEntities
    {
      this.uniqueEntities := uniqueEntities;
    }
  }

  /** `init`: a new state holding the unique entities of the initial document. */
  method Init(doc: Doc) returns (state: EntityState)
    ensures fresh(state)
    ensures state.uniqueEntities == UniqueEntitiesOf(doc)
  {
    var uniqueEntities := GetUniqueEntitiesFromDoc(doc);
    state := new EntityState(uniqueEntities);
  }

  /**
   * `apply`: a transaction that did not change the document keeps the old state.
   * Otherwise the list is recomputed from the new document; the old state object
   * is kept when the new list is the same as the old one, and a new state is built
   * when it is not. Either way the state holds the new document's unique entities.
   */
  method Apply(tr: Transaction, oldState: EntityState) returns (state: EntityState)
    ensures !tr.DocChanged() ==> state == oldState
    ensures tr.DocChanged() ==> state.uniqueEntities == UniqueEntitiesOf(tr.doc)
    ensures tr.DocChanged() && UniqueEntitiesAreSame(UniqueEntitiesOf(tr.doc), oldState.uniqueEntities) ==>
      state == oldState
    ensures tr.DocChanged() && !UniqueEntitiesAreSame(UniqueEntitiesOf(tr.doc), oldState.uniqueEntities) ==>
      fresh(state)
  {
    if !tr.DocChanged() {
      return oldState;
    }
    var uniqueEntities := GetUniqueEntitiesFromDoc(tr.doc);
    var same := UniqueEntitiesAreSame(uniqueEntities, oldState.uniqueEntities);
    if !same {
      state := new EntityState(uniqueEntities);
      return;
    }
    state := oldState;
  }
}
