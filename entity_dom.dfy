/**
 * The markup of an entity node (`createNodeSpec` in src/entity-extension.ts): a
 * `span` that carries the id and the name in the `s-id` and `s-name` attributes.
 */
module EntityDom {
  import opened Wrappers
  import opened EntityTypes

  const DataAttributeId: string := "s-id"
  const DataAttributeName: string := "s-name"
  const SpanTag: string := "span"

  /** An element: its tag and its attributes. */
  datatype DomSpec = DomSpec(tag: string, attributes: map<string, string>)

  /**
   * `toDOM`: a `span` with the id under `s-id` and the name under `s-name`. The
   * host serializer writes no attribute whose value is `null`.
   */
  function ToDom(attrs: EntityAttrs): (dom: DomSpec)
    ensures dom.tag == SpanTag
    ensures Get(dom.attributes, DataAttributeId) == attrs.id
    ensures Get(dom.attributes, DataAttributeName) == attrs.name
    ensures dom.attributes.Keys <= {DataAttributeId, DataAttributeName}
  {
    var withId := if attrs.id.Some? then map[DataAttributeId := attrs.id.value] else map[];
    var withName := if attrs.name.Some? then map[DataAttributeName := attrs.name.value] else map[];
    DomSpec(SpanTag, withId + withName)
  }

  /**
   * `parseDOM`: the rule `span[s-id]` matches a `span` that has an `s-id`
   * attribute; the node's id and name are read back from `s-id` and `s-name`
   * (`getAttribute` gives `null` for a missing attribute).
   */
  function ParseDom(dom: DomSpec): (attrs: Option<EntityAttrs>)
    ensures attrs.Some? <==> dom.tag == SpanTag && DataAttributeId in dom.attributes
    ensures attrs.Some? ==> attrs.value.id == Some(dom.attributes[DataAttributeId])
    ensures attrs.Some? ==> attrs.value.name == Get(dom.attributes, DataAttributeName)
  {
    if dom.tag == SpanTag && DataAttributeId in dom.attributes then
      Some(EntityAttrs(Get(dom.attributes, DataAttributeId), Get(dom.attributes, DataAttributeName)))
    else
      None
  }

  /** A marker with an id is read back with the same id and name. */
  lemma DomRoundTrip(attrs: EntityAttrs)
    requires attrs.id.Some?
    ensures ParseDom(ToDom(attrs)) == Some(attrs)
  {
  }

  /** A marker whose id is `null` is written without `s-id`, so the parse rule does not recognise it. */
  lemma NullIdIsNotParsedBack(attrs: EntityAttrs)
    requires attrs.id.None?
    ensures ParseDom(ToDom(attrs)) == None
  {
  }

  /** Parsing a recognised span and writing it back gives the same `s-id` and `s-name`. */
  lemma ParsedSpanRoundTrip(dom: DomSpec)
    requires dom.tag == SpanTag && dom.attributes.Keys <= {DataAttributeId, DataAttributeName}
    requires DataAttributeId in dom.attributes
    ensures ParseDom(dom).Some? && ToDom(ParseDom(dom).value) == dom
  {
    var back := ToDom(ParseDom(dom).value);
    assert back.attributes.Keys == dom.attributes.Keys;
  }
}
