/** The entity record of src/types.ts. */
module EntityTypes {
  import opened Wrappers

  /**
   * `EntityAttrs`: an entity's identifier and display name. Both are optional:
   * `None` stands for a property that is absent in a command argument, and for
   * JavaScript `null` in the attributes of a document node.
   */
  datatype EntityAttrs = EntityAttrs(id: Option<string>, name: Option<string>)

  /** An id as used for keys of the unique-entity map (`null` is a key like any other). */
  type Id = Option<string>
}
