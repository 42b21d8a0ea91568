/**
 * `getUniqueEntitiesFromDoc` (src/entity-extension.ts): the entity atoms of a
 * document, reduced through a `Map` keyed by id to one entry per id.
 */
module UniqueEntities {
  import opened Wrappers
  import opened EntityTypes
  import opened Document

  // ---------------------------------------------------------------------------
  // The walk: which nodes the `descendants` callback records.

  /**
   * The attributes the callback records while walking `nodes`. `skipBelow` is the
   * depth of the last recorded entity atom while the walk is still inside it: the
   * callback returned `false` for it, so nodes deeper than it are not visited.
   */
  function ScanFrom(nodes: seq<Node>, skipBelow: Option<nat>): seq<EntityAttrs>
    decreases |nodes|
  {
    if nodes == [] then []
    else if skipBelow.Some? && nodes[0].depth > skipBelow.value then ScanFrom(nodes[1..], skipBelow)
    else if IsEntityAtom(nodes[0]) then [nodes[0].attrs] + ScanFrom(nodes[1..], Some(nodes[0].depth))
    else ScanFrom(nodes[1..], None)
  }

  /** The attributes of the entity atoms the walk of `doc` records, in document order. */
  function EntityAtoms(doc: Doc): seq<EntityAttrs> {
    ScanFrom(doc, None)
  }

  /** The attributes of every entity atom of `doc`, nested or not, in document order. */
  function AllEntityAtoms(doc: Doc): (r: seq<EntityAttrs>)
    ensures |r| <= |doc|
    ensures forall e :: e in r <==> exists i :: 0 <= i < |doc| && IsEntityAtom(doc[i]) && doc[i].attrs == e
    decreases |doc|
  {
    if doc == [] then []
    else
      var rest := AllEntityAtoms(doc[1..]);
      assert forall i :: 0 < i < |doc| ==> doc[i] == doc[1..][i - 1];
      (if IsEntityAtom(doc[0]) then [doc[0].attrs] else []) + rest
  }

  // ---------------------------------------------------------------------------
  // The reduction: a JavaScript `Map` keyed by id, filled with `set`.

  /** A `Map<Id, EntityAttrs>`: its keys in insertion order and its entries. */
  datatype OrderedMap = OrderedMap(keys: seq<Id>, entries: map<Id, EntityAttrs>)

  ghost predicate Distinct(keys: seq<Id>) {
    forall i, j :: 0 <= i < j < |keys| ==> keys[i] != keys[j]
  }

  ghost predicate WellFormed(m: OrderedMap) {
    Distinct(m.keys) && forall k :: k in m.keys <==> k in m.entries
  }

  /** `map.set(k, v)`: a new key goes last; an existing key keeps its place and gets the new value. */
  function MapSet(m: OrderedMap, k: Id, v: EntityAttrs): OrderedMap {
    OrderedMap(if k in m.entries then m.keys else m.keys + [k], m.entries[k := v])
  }

  /**
   * `set` keeps every existing key in its place and adds at most one key at the
   * end; the key then holds the new value, every other key keeps its value, and
   * a well-formed map stays well-formed.
   */
  lemma MapSetKeepsPlaces(m: OrderedMap, k: Id, v: EntityAttrs)
    ensures m.keys <= MapSet(m, k, v).keys && |MapSet(m, k, v).keys| <= |m.keys| + 1
    ensures MapSet(m, k, v).entries.Keys == m.entries.Keys + {k} && MapSet(m, k, v).entries[k] == v
    ensures forall j :: j in m.entries && j != k ==> MapSet(m, k, v).entries[j] == m.entries[j]
    ensures WellFormed(m) ==> WellFormed(MapSet(m, k, v))
  {
  }

  /** The map after `set(e.id, e)` for every recorded `e`, in order. */
  function Reduce(atoms: seq<EntityAttrs>): (m: OrderedMap)
    ensures WellFormed(m)
    ensures |m.keys| <= |atoms|
  {
    if atoms == [] then OrderedMap([], map[])
    else
      var last := atoms[|atoms| - 1];
      MapSet(Reduce(atoms[..|atoms| - 1]), last.id, last)
  }

  lemma ReduceSnoc(atoms: seq<EntityAttrs>, x: EntityAttrs)
    ensures Reduce(atoms + [x]) == MapSet(Reduce(atoms), x.id, x)
  {
    assert (atoms + [x])[..|atoms|] == atoms;
  }

  /** `[...map.values()]` */
  function Values(m: OrderedMap): (r: seq<EntityAttrs>)
    requires WellFormed(m)
    ensures |r| == |m.keys|
  {
    seq(|m.keys|, i requires 0 <= i < |m.keys| => m.entries[m.keys[i]])
  }

  function UniqueOf(atoms: seq<EntityAttrs>): seq<EntityAttrs> {
    Values(Reduce(atoms))
  }

  /** What `getUniqueEntitiesFromDoc(doc)` returns. */
  function UniqueEntitiesOf(doc: Doc): seq<EntityAttrs> {
    UniqueOf(EntityAtoms(doc))
  }

  // ---------------------------------------------------------------------------
  // An independent description of the result.

  /** The ids of a list of entities. */
  function IdsOf(es: seq<EntityAttrs>): set<Id>
    decreases |es|
  {
    if es == [] then {} else IdsOf(es[..|es| - 1]) + {es[|es| - 1].id}
  }

  lemma IdsOfSnoc(es: seq<EntityAttrs>, x: EntityAttrs)
    ensures IdsOf(es + [x]) == IdsOf(es) + {x.id}
  {
    assert (es + [x])[..|es|] == es;
  }

  lemma {:induction false} IdsOfMembers(es: seq<EntityAttrs>)
    ensures forall id :: id in IdsOf(es) <==> exists j :: 0 <= j < |es| && es[j].id == id
    decreases |es|
  {
    if es != [] {
      var init := es[..|es| - 1];
      IdsOfMembers(init);
      assert forall j :: 0 <= j < |init| ==> init[j] == es[j];
    }
  }

  /** The index of the first entity with `id`, or the length of the list when there is none. */
  function FirstIndex(es: seq<EntityAttrs>, id: Id): (k: nat)
    ensures k <= |es|
    ensures k < |es| <==> id in IdsOf(es)
    ensures k < |es| ==> es[k].id == id
    ensures forall j :: 0 <= j < k && j < |es| ==> es[j].id != id
    decreases |es|
  {
    if es == [] then 0
    else
      var init := es[..|es| - 1];
      var k := FirstIndex(init, id);
      assert forall j :: 0 <= j < |init| ==> es[j] == init[j];
      if k < |init| then k
      else if es[|es| - 1].id == id then |init|
      else |es|
  }

  /** The last entity with `id`. */
  function LastWith(es: seq<EntityAttrs>, id: Id): (e: EntityAttrs)
    requires id in IdsOf(es)
    ensures e in es && e.id == id
    decreases |es|
  {
    var init := es[..|es| - 1];
    if es[|es| - 1].id == id then es[|es| - 1]
    else
      var e := LastWith(init, id);
      assert e in es by {
        var j :| 0 <= j < |init| && init[j] == e;
        assert es[j] == e;
      }
      e
  }

  lemma FirstIndexSnoc(es: seq<EntityAttrs>, x: EntityAttrs, id: Id)
    ensures FirstIndex(es, id) < |es| ==> FirstIndex(es + [x], id) == FirstIndex(es, id)
    ensures FirstIndex(es, id) == |es| && x.id == id ==> FirstIndex(es + [x], id) == |es|
  {
    assert (es + [x])[..|es|] == es;
  }

  lemma LastWithSnoc(es: seq<EntityAttrs>, x: EntityAttrs, id: Id)
    requires id in IdsOf(es + [x])
    ensures id == x.id ==> LastWith(es + [x], id) == x
    ensures id != x.id ==> id in IdsOf(es) && LastWith(es + [x], id) == LastWith(es, id)
  {
    assert (es + [x])[..|es|] == es;
  }

  /** The map's keys are the recorded ids. */
  lemma {:induction false} ReduceKeys(atoms: seq<EntityAttrs>)
    ensures Reduce(atoms).entries.Keys == IdsOf(atoms)
    decreases |atoms|
  {
    if atoms != [] {
      var init, last := atoms[..|atoms| - 1], atoms[|atoms| - 1];
      ReduceKeys(init);
    }
  }

  /** The value under each key is the last record with that id. */
  lemma {:induction false} ReduceValues(atoms: seq<EntityAttrs>)
    ensures forall k :: k in Reduce(atoms).entries ==> k in IdsOf(atoms) && Reduce(atoms).entries[k] == LastWith(atoms, k)
    decreases |atoms|
  {
    ReduceKeys(atoms);
    if atoms != [] {
      var init, last := atoms[..|atoms| - 1], atoms[|atoms| - 1];
      assert atoms == init + [last];
      ReduceValues(init);
      forall k | k in Reduce(atoms).entries
        ensures Reduce(atoms).entries[k] == LastWith(atoms, k)
      {
        LastWithSnoc(init, last, k);
      }
    }
  }

  /** The keys are in the order of each id's first record. */
  lemma {:induction false} ReduceOrder(atoms: seq<EntityAttrs>)
    ensures forall i, j :: 0 <= i < j < |Reduce(atoms).keys| ==>
      FirstIndex(atoms, Reduce(atoms).keys[i]) < FirstIndex(atoms, Reduce(atoms).keys[j])
    decreases |atoms|
  {
    if atoms != [] {
      var init, last := atoms[..|atoms| - 1], atoms[|atoms| - 1];
      assert atoms == init + [last];
      ReduceOrder(init);
      ReduceKeys(init);
      var m0 := Reduce(init);
      ReduceSnoc(init, last);
      forall i | 0 <= i < |m0.keys|
        ensures FirstIndex(atoms, m0.keys[i]) == FirstIndex(init, m0.keys[i]) < |init|
      {
        assert m0.keys[i] in m0.entries;
        FirstIndexSnoc(init, last, m0.keys[i]);
      }
      if last.id !in m0.entries {
        FirstIndexSnoc(init, last, last.id);
      }
    }
  }

  /**
   * The map after the walk holds one key per recorded id, keyed in order of first
   * appearance, each with the last value recorded for it. It gathers
   * `ReduceKeys`, `ReduceValues` and `ReduceOrder` into one statement.
   */
  lemma ReduceDescribed(atoms: seq<EntityAttrs>)
    ensures Reduce(atoms).entries.Keys == IdsOf(atoms)
    ensures forall k :: k in Reduce(atoms).entries ==> Reduce(atoms).entries[k] == LastWith(atoms, k)
    ensures forall i, j :: 0 <= i < j < |Reduce(atoms).keys| ==>
      FirstIndex(atoms, Reduce(atoms).keys[i]) < FirstIndex(atoms, Reduce(atoms).keys[j])
  {
    ReduceKeys(atoms);
    ReduceValues(atoms);
    ReduceOrder(atoms);
  }

  // ---------------------------------------------------------------------------
  // What the result promises.

  /** The unique list never holds two entries with the same id. */
  lemma UniqueIdsDistinct(atoms: seq<EntityAttrs>)
    ensures forall i, j :: 0 <= i < j < |UniqueOf(atoms)| ==> UniqueOf(atoms)[i].id != UniqueOf(atoms)[j].id
  {
    var m := Reduce(atoms);
    ReduceValues(atoms);
    forall i | 0 <= i < |m.keys| ensures UniqueOf(atoms)[i].id == m.keys[i] {
      assert m.keys[i] in m.entries;
    }
  }

  /** The ids in the unique list are exactly the ids recorded, and there are no more entries than records. */
  lemma UniqueIdsAreRecordedIds(atoms: seq<EntityAttrs>)
    ensures IdsOf(UniqueOf(atoms)) == IdsOf(atoms)
    ensures |UniqueOf(atoms)| <= |atoms|
  {
    var m, r := Reduce(atoms), UniqueOf(atoms);
    ReduceKeys(atoms);
    ReduceValues(atoms);
    IdsOfMembers(r);
    forall i | 0 <= i < |m.keys| ensures r[i].id == m.keys[i] {
      assert m.keys[i] in m.entries;
    }
    forall k | k in IdsOf(atoms) ensures k in IdsOf(r) {
      var i :| 0 <= i < |m.keys| && m.keys[i] == k;
      assert r[i].id == k;
    }
  }

  /** Each entry is the last record with its id: later records overwrite the value. */
  lemma UniqueLastWins(atoms: seq<EntityAttrs>)
    ensures forall i :: 0 <= i < |UniqueOf(atoms)| ==>
      UniqueOf(atoms)[i].id in IdsOf(atoms) && UniqueOf(atoms)[i] == LastWith(atoms, UniqueOf(atoms)[i].id)
  {
    var m, r := Reduce(atoms), UniqueOf(atoms);
    ReduceValues(atoms);
    forall i | 0 <= i < |r| ensures r[i].id in IdsOf(atoms) && r[i] == LastWith(atoms, r[i].id) {
      assert m.keys[i] in m.entries;
    }
  }

  /** Entries appear in the order of each id's first record: later records never move an entry. */
  lemma UniqueFirstSeenOrder(atoms: seq<EntityAttrs>)
    ensures forall i, j :: 0 <= i < j < |UniqueOf(atoms)| ==>
      FirstIndex(atoms, UniqueOf(atoms)[i].id) < FirstIndex(atoms, UniqueOf(atoms)[j].id)
  {
    var m, r := Reduce(atoms), UniqueOf(atoms);
    ReduceValues(atoms);
    ReduceOrder(atoms);
    forall i | 0 <= i < |r| ensures r[i].id == m.keys[i] {
      assert m.keys[i] in m.entries;
    }
  }

  // ---------------------------------------------------------------------------
  // The walk and the entity atoms.

  lemma {:induction false} ScanRecordsEntityAtoms(nodes: seq<Node>, skipBelow: Option<nat>)
    ensures |ScanFrom(nodes, skipBelow)| <= |AllEntityAtoms(nodes)|
    ensures forall e :: e in ScanFrom(nodes, skipBelow) ==> e in AllEntityAtoms(nodes)
    decreases |nodes|
  {
    if nodes != [] {
      ScanRecordsEntityAtoms(nodes[1..], skipBelow);
      ScanRecordsEntityAtoms(nodes[1..], Some(nodes[0].depth));
      ScanRecordsEntityAtoms(nodes[1..], None);
    }
  }

  /**
   * Only entity atoms are recorded: every recorded entry is the attributes of an
   * entity atom of the document, and there are at most as many as such atoms.
   */
  lemma EntityAtomsComeFromEntityNodes(doc: Doc)
    ensures |EntityAtoms(doc)| <= |AllEntityAtoms(doc)|
    ensures forall e :: e in EntityAtoms(doc) ==>
      exists i :: 0 <= i < |doc| && IsEntityAtom(doc[i]) && doc[i].attrs == e
  {
    ScanRecordsEntityAtoms(doc, None);
  }

  /**
   * The callback returns `false` for a recorded entity atom: while the walk is
   * inside it (every node deeper than it), nothing is recorded, entity atoms
   * included, and the walk goes on after them as it would without them.
   */
  lemma {:induction false} NestedNodesAreSkipped(inside: seq<Node>, rest: seq<Node>, d: nat)
    requires forall i :: 0 <= i < |inside| ==> inside[i].depth > d
    ensures ScanFrom(inside, Some(d)) == []
    ensures ScanFrom(inside + rest, Some(d)) == ScanFrom(rest, Some(d))
    decreases |inside|
  {
    if inside == [] {
      assert inside + rest == rest;
    } else {
      assert (inside + rest)[0] == inside[0] && (inside + rest)[1..] == inside[1..] + rest;
      NestedNodesAreSkipped(inside[1..], rest, d);
    }
  }

  lemma {:induction false} ScanOfLeaves(nodes: seq<Node>, skipBelow: Option<nat>)
    requires EntityAtomsAreLeaves(nodes)
    requires skipBelow.Some? && nodes != [] ==> nodes[0].depth <= skipBelow.value
    ensures ScanFrom(nodes, skipBelow) == AllEntityAtoms(nodes)
    decreases |nodes|
  {
    if nodes != [] {
      assert EntityAtomsAreLeaves(nodes[1..]) by {
        forall i | 0 <= i < |nodes[1..]| - 1 && IsEntityAtom(nodes[1..][i])
          ensures nodes[1..][i + 1].depth <= nodes[1..][i].depth
        {
          assert nodes[1..][i] == nodes[i + 1] && nodes[1..][i + 1] == nodes[i + 2];
        }
      }
      if IsEntityAtom(nodes[0]) {
        ScanOfLeaves(nodes[1..], Some(nodes[0].depth));
      } else {
        ScanOfLeaves(nodes[1..], None);
      }
    }
  }

  /**
   * When entity atoms have no content (as the node schema makes them), the walk
   * records every entity atom, so the ids of the unique list are exactly the ids
   * of the document's entity atoms.
   */
  lemma UniqueIdsOfLeafEntities(doc: Doc)
    requires EntityAtomsAreLeaves(doc)
    ensures EntityAtoms(doc) == AllEntityAtoms(doc)
    ensures forall id :: id in IdsOf(UniqueEntitiesOf(doc)) <==>
      exists i :: 0 <= i < |doc| && IsEntityAtom(doc[i]) && doc[i].attrs.id == id
  {
    ScanOfLeaves(doc, None);
    var atoms := AllEntityAtoms(doc);
    UniqueIdsAreRecordedIds(atoms);
    IdsOfMembers(atoms);
    forall id | id in IdsOf(atoms)
      ensures exists i :: 0 <= i < |doc| && IsEntityAtom(doc[i]) && doc[i].attrs.id == id
    {
      var j :| 0 <= j < |atoms| && atoms[j].id == id;
      assert atoms[j] in atoms;
    }
    forall i | 0 <= i < |doc| && IsEntityAtom(doc[i]) ensures doc[i].attrs.id in IdsOf(atoms) {
      assert doc[i].attrs in atoms;
      var j :| 0 <= j < |atoms| && atoms[j] == doc[i].attrs;
    }
  }

  // ---------------------------------------------------------------------------
  // The imperative reduction.

  /** The facts about the result that `GetUniqueEntitiesFromDoc` promises, gathered from the lemmas above. */
  lemma UniqueListFacts(atoms: seq<EntityAttrs>)
    ensures forall i, j :: 0 <= i < j < |UniqueOf(atoms)| ==> UniqueOf(atoms)[i].id != UniqueOf(atoms)[j].id
    ensures IdsOf(UniqueOf(atoms)) == IdsOf(atoms)
  {
    UniqueIdsDistinct(atoms);
    UniqueIdsAreRecordedIds(atoms);
  }

  /** One step of the walk at position `i`. */
  lemma ScanFromAt(doc: Doc, i: nat, skipBelow: Option<nat>)
    requires i < |doc|
    ensures ScanFrom(doc[i..], skipBelow) ==
      if skipBelow.Some? && doc[i].depth > skipBelow.value then ScanFrom(doc[i + 1..], skipBelow)
      else if IsEntityAtom(doc[i]) then [doc[i].attrs] + ScanFrom(doc[i + 1..], Some(doc[i].depth))
      else ScanFrom(doc[i + 1..], None)
  {
    assert doc[i..][0] == doc[i] && doc[i..][1..] == doc[i + 1..];
  }

  /** One node of the walk, seen from the records so far. */
  lemma WalkStep(doc: Doc, i: nat, skipBelow: Option<nat>, recorded: seq<EntityAttrs>)
    requires i < |doc| && EntityAtoms(doc) == recorded + ScanFrom(doc[i..], skipBelow)
    ensures skipBelow.Some? && doc[i].depth > skipBelow.value ==>
      EntityAtoms(doc) == recorded + ScanFrom(doc[i + 1..], skipBelow)
    ensures !(skipBelow.Some? && doc[i].depth > skipBelow.value) && IsEntityAtom(doc[i]) ==>
      && EntityAtoms(doc) == (recorded + [doc[i].attrs]) + ScanFrom(doc[i + 1..], Some(doc[i].depth))
      && Reduce(recorded + [doc[i].attrs]) == MapSet(Reduce(recorded), doc[i].attrs.id, doc[i].attrs)
    ensures !(skipBelow.Some? && doc[i].depth > skipBelow.value) && !IsEntityAtom(doc[i]) ==>
      EntityAtoms(doc) == recorded + ScanFrom(doc[i + 1..], None)
  {
    ScanFromAt(doc, i, skipBelow);
    ReduceSnoc(recorded, doc[i].attrs);
    var rest := ScanFrom(doc[i + 1..], Some(doc[i].depth));
    assert recorded + ([doc[i].attrs] + rest) == (recorded + [doc[i].attrs]) + rest;
  }

  /** `map.set(k, v)` on the map held as its keys in insertion order and its entries. */
  method SetById(keys: seq<Id>, byId: map<Id, EntityAttrs>, k: Id, v: EntityAttrs)
    returns (keys': seq<Id>, byId': map<Id, EntityAttrs>)
    ensures OrderedMap(keys', byId') == MapSet(OrderedMap(keys, byId), k, v)
  {
    keys' := keys;
    if k !in byId {
      keys' := keys + [k];
    }
    byId' := byId[k := v];
  }

  /**
   * The walk of `getUniqueEntitiesFromDoc`: `set` each visited entity atom's
   * `{id, name}` under its id, without entering it. The map is returned as its
   * keys in insertion order and its entries.
   */
  method FillMapById(doc: Doc) returns (keys: seq<Id>, byId: map<Id, EntityAttrs>)
    ensures keys == Reduce(EntityAtoms(doc)).keys && byId == Reduce(EntityAtoms(doc)).entries
  {
    keys, byId := [], map[];
    var skipBelow: Option<nat> := None;
    ghost var recorded: seq<EntityAttrs> := [];
    var i := 0;
    while i < |doc|
      invariant 0 <= i <= |doc|
      invariant EntityAtoms(doc) == recorded + ScanFrom(doc[i..], skipBelow)
      invariant keys == Reduce(recorded).keys && byId == Reduce(recorded).entries
    {
      var node := doc[i];
      WalkStep(doc, i, skipBelow, recorded);
      if skipBelow.Some? && node.depth > skipBelow.value {
        // inside an entity atom: `descendants` does not visit it
      } else if node.isAtom && node.typeName == EntityTypeName {
        keys, byId := SetById(keys, byId, node.attrs.id, node.attrs);
        recorded := recorded + [node.attrs];
        skipBelow := Some(node.depth);
      } else {
        skipBelow := None;
      }
      i := i + 1;
    }
    assert doc[i..] == [];
    assert recorded == EntityAtoms(doc);
  }

  /**
   * `getUniqueEntitiesFromDoc(doc)`: fill the map by walking the document, then
   * return `[...map.values()]`.
   */
  method GetUniqueEntitiesFromDoc(doc: Doc) returns (unique: seq<EntityAttrs>)
    ensures unique == UniqueEntitiesOf(doc)
    ensures forall i, j :: 0 <= i < j < |unique| ==> unique[i].id != unique[j].id
    ensures IdsOf(unique) == IdsOf(EntityAtoms(doc))
  {
    var keys, byId := FillMapById(doc);
    ghost var m := Reduce(EntityAtoms(doc));
    assert forall k :: 0 <= k < |keys| ==> keys[k] in byId by {
      assert WellFormed(m);
    }
    unique := seq(|keys|, k requires 0 <= k < |keys| => byId[keys[k]]);
    assert unique == Values(m);
    UniqueListFacts(EntityAtoms(doc));
  }
}
