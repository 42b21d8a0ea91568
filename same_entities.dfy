/** src/unique-entities-are-same.ts: content comparison of two unique-entity lists. */
module SameEntities {
  import opened EntityTypes
  import SameArray

  /** The inner `isSameEntity`: both the id and the name are strictly equal. */
  function IsSameEntity(a: EntityAttrs, b: EntityAttrs): (r: bool)
    ensures r <==> a == b
  {
    a.id == b.id && a.name == b.name
  }

  /**
   * `uniqueEntitiesAreSame`: equal lengths and, index by index, the same id and name.
   * Since an entity is exactly its id and its name, this is value equality of the lists.
   */
  function UniqueEntitiesAreSame(a: seq<EntityAttrs>, b: seq<EntityAttrs>): (r: bool)
    ensures r <==> a == b
  {
    |a| == |b| && SameArray.EveryFrom(a, b, IsSameEntity, 0)
  }

  /** The comparison spelled out: equal lengths and, at every index, equal id and equal name. */
  lemma SameMeansPairwiseEqual(a: seq<EntityAttrs>, b: seq<EntityAttrs>)
    ensures UniqueEntitiesAreSame(a, b) <==>
      |a| == |b| && forall i :: 0 <= i < |a| ==> a[i].id == b[i].id && a[i].name == b[i].name
  {
    if |a| == |b| && forall i :: 0 <= i < |a| ==> a[i].id == b[i].id && a[i].name == b[i].name {
      assert forall i :: 0 <= i < |a| ==> a[i] == b[i];
    }
  }

  /** Lists of different lengths always differ. */
  lemma DifferentLengthsAreNotSame(a: seq<EntityAttrs>, b: seq<EntityAttrs>)
    requires |a| != |b|
    ensures !UniqueEntitiesAreSame(a, b)
  {
  }

  /** Every list is the same as itself. */
  lemma SameIsReflexive(a: seq<EntityAttrs>)
    ensures UniqueEntitiesAreSame(a, a)
  {
  }

  /** The comparison is symmetric. */
  lemma SameIsSymmetric(a: seq<EntityAttrs>, b: seq<EntityAttrs>)
    ensures UniqueEntitiesAreSame(a, b) == UniqueEntitiesAreSame(b, a)
  {
  }

  /**
   * The comparison is order-sensitive: one index where the id or the name differs
   * makes the lists differ, even if the same entities occur elsewhere in `b`.
   */
  lemma SameIsOrderSensitive(a: seq<EntityAttrs>, b: seq<EntityAttrs>, i: nat)
    requires i < |a| && i < |b|
    requires a[i].id != b[i].id || a[i].name != b[i].name
    ensures !UniqueEntitiesAreSame(a, b)
  {
  }

  /** `uniqueEntitiesAreSame(a, b)` is `isSameArray(a, b, isSameEntity)`. */
  lemma SameIsSameArrayOfSameEntity(a: seq<EntityAttrs>, b: seq<EntityAttrs>)
    ensures UniqueEntitiesAreSame(a, b) == SameArray.IsSameArray(a, b, IsSameEntity)
  {
  }
}
