# Entity extension for a rich-text editor — a Dafny model

The entity extension stores small "entity" markers (an `id` and a display
`name`) inside a rich-text document as inline atom nodes. It keeps, in its plugin
state, the list of the distinct entities the document mentions (one entry per
id), recomputes that list when a transaction changes the document, and keeps
the old state object when the list's content did not change. It offers two
commands: `createEntity` inserts a marker at the selection, and
`updateEntityById` rewrites every marker with a given id. A marker is written
to HTML as a `span` with `s-id` and `s-name` attributes and read back from one.

This project models that core:

| file | what it models |
|---|---|
| `wrappers.dfy` | `Option` and a total map lookup |
| `types.dfy` | `EntityAttrs`: `id` and `name`, each possibly absent (`null` / missing) |
| `same_array.dfy` | `isSameArray`, element-wise comparison under a caller's predicate |
| `same_entities.dfy` | `uniqueEntitiesAreSame` and its inner `isSameEntity` |
| `document.dfy` | the host document as a pre-order sequence of nodes with depths; the node schema's defaults; transactions (`setNodeMarkup`, `replaceSelectionWith`) with their steps |
| `unique_entities.dfy` | `getUniqueEntitiesFromDoc`: the pruned walk, the `Map` keyed by id, its values; an independent description of the result |
| `entity_plugin.dfy` | the plugin state and its `init` / `apply` |
| `editor.dfy` | the host editor: its document, selection and plugin state, and `dispatch` |
| `entity_commands.dfy` | `updateEntityById` (with `updateEntityByIdCommand`) and `createEntity` |
| `entity_dom.dfy` | `toDOM` and the `parseDOM` rule for `span[s-id]` |
| `entity_scenarios.dfy` | the behaviour the extension's tests describe, on the documents they build |

A document is the sequence of nodes the host's `descendants` walk visits (the
root excluded), each with its type name, whether it is an atom, its entity
attributes and its depth below the root. A node's position is its index in
that sequence. The JavaScript `Map` of `getUniqueEntitiesFromDoc` is an ordered
map: its keys in insertion order and its entries. `set` on a new key appends
the key; `set` on an existing key keeps its place and replaces the value. The
plugin state is a class whose list never changes, so "keeps the old state" is
object identity (`state == oldState`) and "a new state" is `fresh(state)`.

The editor and its transactions keep two facts: an entity atom has no content
(the default node spec, with no override, gives it none, src/entity-extension.ts:118-123),
and the selection's depth agrees with the nodes around it, so an inserted node
never adopts the nodes after it as children. Both are part of `Valid` and are
kept by every markup change and every insert.

## Model

| member | source | states |
|---|---|---|
| SameArray.EveryFrom | src/is-same-array.ts:6 | `every` from index `i` is true exactly when the predicate holds at every index from `i` on |
| SameArray.IsSameArray | src/is-same-array.ts:1-7 | true exactly when the lengths are equal and the predicate holds for the elements at each index |
| SameArray.DifferentLengthsDiffer | src/is-same-array.ts:6 | arrays of different lengths never compare equal, whatever the predicate |
| SameArray.EmptyArraysAreSame | src/is-same-array.ts:6 | two empty arrays compare equal |
| SameArray.SameArrayReflexive | src/is-same-array.ts:1-7 | under a reflexive predicate every array compares equal to itself |
| SameArray.SameArraySymmetric | src/is-same-array.ts:1-7 | under a symmetric predicate the result does not depend on argument order |
| SameEntities.IsSameEntity | src/unique-entities-are-same.ts:7-8 | two entities are the same exactly when they are equal values (same id and same name) |
| SameEntities.UniqueEntitiesAreSame | src/unique-entities-are-same.ts:3-12 | two lists are the same exactly when they are equal sequences |
| SameEntities.SameMeansPairwiseEqual | src/unique-entities-are-same.ts:9-11 | same exactly when the lengths agree and, at every index, the ids and names agree |
| SameEntities.DifferentLengthsAreNotSame | src/unique-entities-are-same.ts:10 | lists of different lengths are never the same |
| SameEntities.SameIsReflexive | src/unique-entities-are-same.ts:3-12 | every list is the same as itself |
| SameEntities.SameIsSymmetric | src/unique-entities-are-same.ts:3-12 | the comparison is symmetric |
| SameEntities.SameIsOrderSensitive | src/unique-entities-are-same.ts:10 | one index where id or name differ makes the lists differ, so a reordering counts as a change |
| SameEntities.SameIsSameArrayOfSameEntity | src/unique-entities-are-same.ts:3-12 | `uniqueEntitiesAreSame(a, b)` equals `isSameArray(a, b, isSameEntity)` |
| Document.WithDefaults | src/entity-extension.ts:113-117 | the schema defaults keep the id, fill an absent name with `''`, and leave a given name alone |
| Document.EntityNode | src/entity-extension.ts:209 | a created entity node is an atom of the entity type whose attributes are the given ones with defaults applied |
| Document.ReplaceKeepsShape | src/entity-extension.ts:118-123 | replacing a selection the host can produce by a node at its depth keeps entity atoms free of content, and the position after the node is again such a selection |
| Document.MarkupKeepsShape | src/entity-extension.ts:118-123 | a markup change keeps entity atoms free of content and keeps the selection fitting |
| Document.ApplyStep | src/entity-extension.ts:169 | a markup step fits exactly when its position is in the document; it changes that node's attributes and no other node |
| Document.ApplySteps | src/entity-extension.ts:169 | the steps of a transaction applied in order; `None` as soon as one does not fit |
| Document.MarkupStepsKeepLength | src/entity-extension.ts:169 | markup steps only change attributes, so when they all fit the document keeps its length |
| Document.Transaction.DocChanged | src/entity-extension.ts:83 | `tr.docChanged`; a valid transaction that did not change the document still holds the document it started from |
| Document.Transaction.constructor | src/entity-extension.ts:162 | a fresh transaction holds no step, so its document is unchanged |
| Document.Transaction.SetNodeMarkup | src/entity-extension.ts:169 | appends one markup step; the node at `pos` gets the new attributes with defaults, every other node and the selection stay |
| Document.Transaction.ReplaceSelectionWith | src/entity-extension.ts:210 | the selected range is replaced by the node at the selection's depth, the step is recorded, and the selection moves after the node |
| UniqueEntities.ScanFrom | src/entity-extension.ts:182-191 | the `descendants` callback: records each visited entity atom and returns `false` for it, so nodes deeper than it are skipped (properties in `ScanRecordsEntityAtoms`, `ScanOfLeaves`, `NestedNodesAreSkipped`) |
| UniqueEntities.NestedNodesAreSkipped | src/entity-extension.ts:188 | after an entity atom at depth `d` is recorded, nothing deeper than `d` is recorded: the walk does not enter the atom |
| UniqueEntities.EntityAtoms | src/entity-extension.ts:182-191 | the records of the walk of the whole document, in document order |
| UniqueEntities.AllEntityAtoms | src/entity-extension.ts:183 | lists exactly the attributes of the document's entity atoms, at most one per node |
| UniqueEntities.MapSet | src/entity-extension.ts:186 | `Map.set`: a new key is appended, an existing key keeps its place; the key gets the new value (properties in `MapSetKeepsPlaces`) |
| UniqueEntities.MapSetKeepsPlaces | src/entity-extension.ts:186 | `set` keeps every existing key in place, adds at most one key, gives the key the new value, changes no other value, and keeps the map well-formed |
| UniqueEntities.Reduce | src/entity-extension.ts:181-186 | after the `set` calls the map has distinct keys, the same keys as entries, and no more keys than records |
| UniqueEntities.Values | src/entity-extension.ts:192 | the values list has one entry per key |
| UniqueEntities.UniqueEntitiesOf | src/entity-extension.ts:179-193 | the result of `getUniqueEntitiesFromDoc`: the values of the map filled from the walk (properties in the lemmas below) |
| UniqueEntities.ReduceKeys | src/entity-extension.ts:186 | the map's keys are exactly the recorded ids |
| UniqueEntities.ReduceValues | src/entity-extension.ts:186 | the value under each key is the last record with that id |
| UniqueEntities.ReduceOrder | src/entity-extension.ts:181-186 | the keys are ordered by the index of each id's first record |
| UniqueEntities.ReduceDescribed | src/entity-extension.ts:181-192 | the map is described without the fold: keys = recorded ids, in first-seen order, each with its last value |
| UniqueEntities.UniqueIdsDistinct | src/entity-extension.ts:181-192 | the returned list never holds two entries with the same id |
| UniqueEntities.UniqueIdsAreRecordedIds | src/entity-extension.ts:181-192 | the ids of the returned list are exactly the recorded ids, and the list is no longer than the records |
| UniqueEntities.UniqueLastWins | src/entity-extension.ts:186 | each entry equals the last record with its id |
| UniqueEntities.UniqueFirstSeenOrder | src/entity-extension.ts:181-192 | the entries are in the order of each id's first occurrence |
| UniqueEntities.ScanRecordsEntityAtoms | src/entity-extension.ts:182-191 | the walk records only entity atoms' attributes, and no more of them than there are entity atoms |
| UniqueEntities.EntityAtomsComeFromEntityNodes | src/entity-extension.ts:182-191 | every recorded entry is the attributes of some entity atom of the document |
| UniqueEntities.ScanOfLeaves | src/entity-extension.ts:188 | when no node lies inside an entity atom, the pruning at `return false` skips nothing |
| UniqueEntities.UniqueIdsOfLeafEntities | src/entity-extension.ts:179-193 | with content-free entity atoms, an id is in the unique list exactly when some entity atom of the document carries it |
| UniqueEntities.SetById | src/entity-extension.ts:186 | `map.set(k, v)` on the keys and entries held by the walk gives exactly the map `MapSet` describes |
| UniqueEntities.FillMapById | src/entity-extension.ts:181-191 | the loop over the nodes, with the pruning, fills the map in place with exactly the keys, order and values of the `set` fold over the walk's records |
| UniqueEntities.GetUniqueEntitiesFromDoc | src/entity-extension.ts:179-193 | returns the map's values: the unique list of the document, with distinct ids, holding exactly the ids the walk records |
| EntityPlugin.EntityState.constructor | src/entity-extension.ts:96 | a state holds the given list |
| EntityPlugin.Init | src/entity-extension.ts:77-80 | `init` builds a new state holding the initial document's unique entities |
| EntityPlugin.Apply | src/entity-extension.ts:82-99 | an unchanged document keeps the state object; otherwise the new list is computed, the old object is kept when it is the same and a new one is built when it differs |
| EditorView.Editor.constructor | src/entity-extension.ts:77-80 | a new editor on a well-shaped document has a plugin state that describes its document |
| EditorView.Editor.CreateTransaction | src/entity-extension.ts:162 | the command's transaction starts empty from the editor's document and selection |
| EditorView.Editor.Dispatch | src/entity-extension.ts:82-99 | the editor takes the transaction's document and selection, the plugin state still describes it, and the state object is kept exactly when the list is the same |
| EntityCommands.Matches | src/entity-extension.ts:168 | the nodes the update walk rewrites: entity-type nodes carrying the id; every entity atom with the id is one, and the test does not look at the atom flag |
| EntityCommands.Rewrite | src/entity-extension.ts:168-170 | a matching node gets the update with defaults applied, any other node is unchanged, and no node changes type, atom flag or depth |
| EntityCommands.RewriteById | src/entity-extension.ts:167-172 | the document after the update walk, of the same length (per-node properties in `RewriteByIdRewritesMatches`) |
| EntityCommands.RewriteKeepsShape | src/entity-extension.ts:167-172 | the rewrite keeps entity atoms free of content |
| EntityCommands.UpdateWithoutIdClearsId | src/entity-extension.ts:169 | `setNodeMarkup` replaces all attributes: an update without an id leaves every matched node with a `null` id |
| EntityCommands.MarkupSteps | src/entity-extension.ts:167-172 | the `setNodeMarkup` steps the walk stages, one per matching node in document order, no more than there are nodes |
| EntityCommands.RewriteByIdRewritesMatches | src/entity-extension.ts:167-172 | the rewrite gives every entity node with the id the new attributes and leaves every other node as it was |
| EntityCommands.MarkupStepsTargetMatches | src/entity-extension.ts:167-172 | every staged step sets, to the update, the markup of a node that matches, and there are no more steps than nodes |
| EntityCommands.UnmatchedIdChangesNothing | src/entity-extension.ts:167-172 | an id no entity node carries stages no step and leaves the document as it was |
| EntityCommands.StageUpdates | src/entity-extension.ts:167-172 | the walk stages one markup step per matching node in order, and the document becomes the rewrite by id |
| EntityCommands.UpdateEntityById | src/entity-extension.ts:158-177 | always reports success; without a dispatcher the transaction is untouched; otherwise the rewrite is dispatched, the editor holds it, its plugin state describes it, and with no step the state object is kept |
| EntityCommands.WithEntityAt | src/entity-extension.ts:210 | the dispatched document replaces the selected range by exactly one node |
| EntityCommands.CreateEntity | src/entity-extension.ts:206-214 | always reports success; without a dispatcher nothing is staged; otherwise the selection is replaced by a new entity node and dispatched, the plugin state describes the result, and the created id is in the editor's unique list |
| EntityCommands.CreatedEntityIsListed | src/entity-extension.ts:206-214 | inserting an entity at a selection the host can produce, in a document whose entity atoms have no content, puts its id in the new document's unique list |
| EntityCommands.ScanOfRewrite | src/entity-extension.ts:167-172 | walking the rewritten document records the old records with the matching ones replaced by the update |
| EntityCommands.ReduceOfReplace | src/entity-extension.ts:181-186 | replacing every record of one id by a value with that id keeps the map's keys and changes only that id's value |
| EntityCommands.UpdateKeepsUniqueOrder | src/entity-extension.ts:158-177 | an update that keeps the id changes the unique list in place: same ids in the same order, the entry for the id replaced |
| EntityDom.ToDom | src/entity-extension.ts:145-154 | a `span` whose `s-id` and `s-name` hold the id and the name, with no other attribute and none for a `null` value |
| EntityDom.ParseDom | src/entity-extension.ts:125-141 | matches exactly a `span` with `s-id`; the id is read from `s-id` and the name from `s-name` (`null` when missing) |
| EntityDom.DomRoundTrip | src/entity-extension.ts:125-154 | a marker with an id is parsed back from its markup unchanged |
| EntityDom.NullIdIsNotParsedBack | src/entity-extension.ts:125-154 | a marker whose id is `null` is written without `s-id` and not recognised when parsed |
| EntityDom.ParsedSpanRoundTrip | src/entity-extension.ts:125-154 | a recognised span with only `s-id`/`s-name` is written back identically |
| EntityScenarios.ParagraphOf | src/__tests__/entity-extension.spec.tsx:24 | the test document: a paragraph followed by one entity node per item, in order |
| EntityScenarios.DeduplicatesEntities | src/__tests__/entity-extension.spec.tsx:36-43 | markers `[e1, e2, e1]` give the unique list `[e1, e2]` |
| EntityScenarios.LastNameWins | src/entity-extension.ts:186 | two markers with one id and names x then y give the single entry with name y |
| EntityScenarios.CreatesAnEntity | src/__tests__/entity-extension.spec.tsx:91-99 | creating an entity in an empty paragraph gives the unique list `[item]` |
| EntityScenarios.UpdatesAllEntitiesWithTheSameId | src/__tests__/entity-extension.spec.tsx:65-77 | updating id 1 on `[e1, e2, e1]` renames both markers of `e1` and not the one of `e2` |
| EntityScenarios.IgnoresUpdatesOfMissingEntities | src/__tests__/entity-extension.spec.tsx:79-87 | an update of an id no marker has leaves the document as it was and keeps the plugin state object |

## Left out

- The React node view (`ReactComponent`), `default-render-component.tsx`, the storybook files and the render option: they are presentation, with no bearing on the entity data.
- `getUniqueEntities` and `getUniqueEntitiesFromPluginState`: they only read the plugin state, which `EditorView.Editor.Valid` states describes the document.
- The framework machinery (extension registration, tags, `selectable`, `draggable`, `inline`, `marks: ''`, the extra schema attributes of `extra.defaults()`, `extra.parse`, `extra.dom`, `omitExtraAttributes`): only `id` and `name` are modelled.
- Real document positions: positions are indices into the pre-order node sequence, and the selection carries the depth at which an inserted inline node sits. How the host maps positions through steps is not modelled beyond that.
- A `content` or `atom` setting passed through the node-spec `override` (src/entity-extension.ts:124): the invariants of the editor and of transactions (`Document.Transaction.Valid`, `EditorView.Editor.Valid`), and with them `UniqueEntities.UniqueIdsOfLeafEntities` and `EntityCommands.CreatedEntityIsListed`, assume the default spec, where entity atoms have no content. The walk (`UniqueEntities.ScanFrom`, which skips what lies inside a recorded atom, see `UniqueEntities.NestedNodesAreSkipped`) and the update (`EntityCommands.RewriteById`) are modelled for any nesting.
- `getAttrs` rejecting a non-element DOM node, and rules from `override.parseDOM`: the DOM is modelled as elements with a tag and string attributes only.
- EntityDom.ToDom: relies on the host serializer writing no attribute whose value is `null`. That serializer is not part of this model.
- The `entities` field of `EntityState` in `src/types.ts`: the extension never sets or reads it.
- `getAllEntityNodesAttrs` and `updateEntityInPosition`, used by the tests: the extension's source does not define them, so the scenarios read node attributes directly and the `updateEntityInPosition` test is not modelled.
- `getUniqueEntitiesFromDoc` with no document argument (it then reads the current editor state): the model always passes the document.
- EntityCommands.UpdateEntityById: follows the code, which dispatches the transaction even when no node matched. The walk then stages no step, so a transaction that was empty leaves the document and the plugin state object unchanged.
- Entity occurrence lists and hashing of the unique list: the code keeps neither; the old and new lists are compared pairwise.
- EntityCommands.CreateEntity: does not state the editor's new selection beyond what `Document.Transaction.ReplaceSelectionWith` states.
- Concurrency and the host's scheduling of dispatches are not modelled; each command runs to completion on the editor it is given.
