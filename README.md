# ZSerializer save system — a verified model of its core

ZSerializer is a save system for Unity scenes. Saveable behaviours
(`PersistentMonoBehaviour` subclasses and the `PersistentGameObject` node
component) carry stable string ids: a ZUID for the component and a GOZUID
for its game object. A save writes, per save group, one line per descriptor
type: `{<type name>}<JSON array>`. A load reads those lines back. It
rebuilds missing game objects and components and binds them in the id
registry (`idMap`) in a first pass. A second pass restores every component's
values through that registry.

The older front end (`ZSave`) does the same job with engine instance ids. It
keeps a table `idStorage` from the id an object had when the scene was saved
to the id its live counterpart has now, and it rewrites every save file with
string replacements whenever an object had to be rebuilt. Two editors
complement the runtime:
- they check whether a generated descriptor class is stale;
- they build inspector labels;
- they reset and propagate save-group ids;
- they rebuild the registry after a hierarchy edit.

The model is written over abstract object handles:
- ids are strings (instance ids are integers);
- JSON payloads are opaque strings;
- a descriptor is a record of its ids and its serialized values;
- the scene is a sequence of behaviour objects.

Objects the source updates in place are classes: `GameObject`,
`PersistentGameObject`, `PersistentMonoBehaviour`, the registry
`IdRegistry`, the save buffer `JsonBuffer` and the legacy `ZSave` state.
Their methods are proved against specification functions (`TryAdded`,
`Unpack`, `Retargeted`, `RewriteFiles`, `ReplaceInOrder`, `CopiedValue`,
`InspectorName`, `SyncStop`, …). The properties the system promises are then
proved about those functions.

Modules:
- `Wrappers`, `Seqs`, `Strings`: `Option`/`Result`, `IndexOf`, `Filter`, and
  the .NET string operations used (`Split`, `String.Join`, `String.Replace`,
  `Char.ToUpper` for ASCII, integer formatting).
- `Registry`: the id registry and `TryAdd`. An entry may hold a destroyed
  object: the engine compares it equal to null, yet a cast still yields it.
- `Groups`: group name/id mapping, save paths, group ids read back from paths.
- `Codec`: the save-file line format, `CompileJson`/`SaveJsonData`, and the
  mapping from a descriptor type back to its component type.
- `PersistentGameObjects`, `PersistentMonoBehaviours`: the node component,
  `GameObjectData`, `CountParents`, and the behaviour base class.
  `PersistentMonoBehaviour.cs` declares only `showSettings`, `isOn`,
  `groupID` and `autoSync`. The class's other fields come from how
  `ZSerialize.cs` uses `IZSerialize`:
  - `zuid` and `gozuid`: Scripts/Runtime/ZSerialize.cs:424-425 and 640-641;
  - `isSaving`: :648 and :680; `isLoading`: :815 and :837;
  - `IsOn` set on load: :447; read by the group filter: :303.
- `Load`: the two load passes.
- `Ordering`: the loading-order sorts.
- `Pacing`: the batch counter.
- `Save`: the group filter and the pre-save and post-save flags.
- `Legacy`, `LegacyCopy`: the older front end.
- `ClassStates`, `SerializerEditor`, `SaverEditor`: the editor helpers.

## Model

| member | source | states |
|---|---|---|
| Registry.TryAddNeverOverwrites | Scripts/Runtime/ZSerialize.cs:1116-1119 | `TryAdd` keeps every existing binding, the key set grows by exactly the key, the key is bound to the new value only when it was absent, and a present key leaves the map unchanged |
| Registry.IdRegistry.TryAdd | Scripts/Runtime/ZSerialize.cs:1116-1119 | the registry after the call is the old one with the key bound only if it was unbound |
| Registry.IdRegistry.Set | Scripts/Runtime/ZSerialize.cs:414 | the indexer assignment rebinds exactly that key |
| Groups.NameToSaveGroupID | Scripts/Runtime/ZSerialize.cs:170-173 | -1 exactly when the name is not a group; otherwise the first index holding the name |
| Groups.SaveGroupIDToName | Scripts/Runtime/ZSerialize.cs:180-183 | the name is found exactly for ids inside the group list; any other id is an out-of-range fault |
| Groups.NameToIdToName | Scripts/Runtime/ZSerialize.cs:170-183 | a group name maps to an id that maps back to the same name |
| Groups.IdToNameToId | Scripts/Runtime/ZSerialize.cs:170-183 | an id maps to a name that maps back to the id unless that name occurs earlier, in which case it maps back to a smaller id |
| Groups.Combine | Scripts/Runtime/ZSerialize.cs:966-979 | `Path.Combine` ends with its second part, keeps a non-empty first part in front of a relative second part, and inserts at most one separator |
| Groups.GetFilePath | Scripts/Runtime/ZSerialize.cs:964-980 | the path fails exactly for a non-global file with no level being handled and a current group outside the list; every path ends with the file name |
| Groups.GetIDList | Scripts/Runtime/ZSerialize.cs:90-97 | succeeds exactly when every path has a parent directory; then each id is the group index of that directory's name (-1 if none), one per file; a failure names one of the paths |
| Groups.GroupFileMapsBack | Scripts/Runtime/ZSerialize.cs:964-980 | a file written into a uniquely named plain group directory is read back by `GetIDList` as belonging to that group |
| Groups.ParentOfGroupFile | Scripts/Runtime/ZSerialize.cs:93-95 | the parent directory name of `dir/group/file` is `group` |
| Codec.GetTypesAndJsonFromString | Scripts/Runtime/ZSerialize.cs:940-955 | the array filled in the loop is exactly `Unpack` of the text: one record per newline-terminated line, failing at the first line without `}` |
| Codec.ParseLineMeaning | Scripts/Runtime/ZSerialize.cs:944-950 | a line parses exactly when it contains `}`; the name is the text before the first `}` with every `{` removed and the payload is everything after that `}` |
| Codec.ParseAllFails | Scripts/Runtime/ZSerialize.cs:942-952 | a line without `}` after a parsed prefix fails the parse at that line's index |
| Codec.ParseAllFailureStays | Scripts/Runtime/ZSerialize.cs:942-952 | once a prefix of the lines fails, the whole parse fails with the same error |
| Codec.ParseRecordLine | Scripts/Runtime/ZSerialize.cs:957-961 | the line written for a record whose name has no braces or newline parses back to that record |
| Codec.SplitWritten | Scripts/Runtime/ZSerialize.cs:942 | splitting written records plus a newline-free tail at `\n` gives their lines followed by the tail |
| Codec.ParseWritten | Scripts/Runtime/ZSerialize.cs:944-952 | parsing the written lines of well-formed records gives those records in order |
| Codec.RoundTrip | Scripts/Runtime/ZSerialize.cs:940-961 | reading what `GetStringFromTypesAndJson` wrote gives back the same names and payloads, in order, when names hold no braces or newlines and payloads hold no newline |
| Codec.UnpackIgnoresTail | Scripts/Runtime/ZSerialize.cs:942-944 | text after the last newline is never read |
| Codec.JsonBuffer.CompileJson | Scripts/Runtime/ZSerialize.cs:850-856 | one `{type}json` line plus a newline is appended, and the buffer stays the written form of the records compiled so far |
| Codec.JsonBuffer.SaveJsonData | Scripts/Runtime/ZSerialize.cs:876-880 | the writer receives the whole buffer, the buffer is emptied, and the written text reads back as the compiled records |
| Codec.FirstDefining | Scripts/Runtime/ZSerialize.cs:455-458 | an assembly is found exactly when some listed assembly defines the name, and the one found does |
| Codec.GetStringFromTypesAndJson | Scripts/Runtime/ZSerialize.cs:957-961 | no records give the empty text; otherwise the text opens with `{` and ends with a newline, with at least three characters per record |
| Codec.GetTypeFromZSerializerType | Scripts/Runtime/ZSerialize.cs:451-459 | the node descriptor resolves to the node type; any other resolved name is defined by the descriptor's own assembly, or is a `UnityEngine.` name defined by a Unity component assembly |
| Codec.DescriptorNamesItsComponent | Scripts/Runtime/ZSerialize.cs:451-459 | `<Name>ZSerializer` resolves to `<Name>` when its assembly defines it, otherwise to `UnityEngine.<Name>` exactly when a Unity component assembly defines that, otherwise to nothing |
| PersistentGameObjects.GameObject.constructor | Scripts/Runtime/PersistentGameObject.cs:44 | a new game object is an active, untagged, unparented root at the origin with unit scale |
| PersistentGameObjects.CountParents | Scripts/Runtime/PersistentGameObject.cs:11-20 | the depth is 1 plus the number of ancestors, so 1 for a root |
| PersistentGameObjects.ChildDeeperThanParent | Scripts/Runtime/PersistentGameObject.cs:14-17 | a child's depth is its parent's depth plus one |
| PersistentGameObjects.MakePerfectlyValidGameObject | Scripts/Runtime/PersistentGameObject.cs:42-59 | the new object takes hideFlags, name, active, isStatic, layer, tag, position, rotation and size (as local scale) from the data, and its parent is the data's parent or none; its depth follows |
| PersistentGameObjects.PersistentGameObject.constructor | Scripts/Runtime/ZSerialize.cs:421 | an added node component belongs to its game object and starts with no ids, values or serialized components |
| PersistentGameObjects.UnityComponent.constructor | Scripts/Runtime/ZSerialize.cs:438 | an added engine component has its type and game object and no restored values |
| PersistentMonoBehaviours.PersistentMonoBehaviour.constructor | Scripts/Runtime/PersistentMonoBehaviour.cs:45-48 | a new behaviour has `autoSync` on and `showSettings`, `isOn` and `groupID` off or zero, as the field initialisers declare; the ids, the saving and loading flags and the restored values, which the runtime reaches through `IZSerialize` (see the module note), start empty or off |
| PersistentMonoBehaviours.PersistentMonoBehaviour.SetGroupID | Scripts/Runtime/PersistentMonoBehaviour.cs:49-53 | the `GroupID` getter afterwards returns the value set; nothing else changes |
| PersistentMonoBehaviours.PersistentMonoBehaviour.SetAutoSync | Scripts/Runtime/PersistentMonoBehaviour.cs:55-59 | the `AutoSync` getter afterwards returns the value set; nothing else changes |
| PersistentMonoBehaviours.PersistentMonoBehaviour.Reset | Scripts/Runtime/PersistentMonoBehaviour.cs:61-64 | `isOn` takes the settings' default for the concrete type; nothing else changes |
| Load.RebuildOwner | Scripts/Runtime/ZSerialize.cs:399-415 | a non-node record whose game object is unbound or bound to null is skipped with the registry unchanged; for a node record a game object is rebuilt from its data and bound under the GOZUID |
| Load.AddMissingComponent | Scripts/Runtime/ZSerialize.cs:417-427 | an unbound component of an `IZSerialize` type is added to the game object and bound under its ZUID, with both its ZUID and its GOZUID set to that ZUID; with no game object this faults |
| Load.RestoreValues | Scripts/Runtime/ZSerialize.cs:292-295 | the descriptor's values are written into the component; a node also takes its serialized component list; a node keeps its ids, and a behaviour keeps its ids, group, on switch, auto-sync, settings and saving and loading flags |
| Load.RestoreSerializedComponents | Scripts/Runtime/ZSerialize.cs:434-442 | every serialized component whose component is missing gets a freshly added one, bound under its ZUID; live ones are kept; every entry it adds or replaces holds a fresh object |
| Load.BindAddedKeepsBound | Scripts/Runtime/ZSerialize.cs:434-442 | binding the re-added components never unbinds a live key |
| Load.RestoreNode | Scripts/Runtime/ZSerialize.cs:429-443 | a node record is restored into its node and its missing engine components are re-added and bound; anything but a node component faults |
| Load.LoadObjectsDynamically | Scripts/Runtime/ZSerialize.cs:392-448 | a live owner is the game object bound under the GOZUID, so a missing `IZSerialize` component is added to it and bound, and the call then succeeds unless that binding is not a game object or a node record's ZUID is bound to a non-node; a fault names the descriptor's ZUID; the skip, the rebuilt and bound game object, the added and bound component, the node restore and the exact resulting registry; a restored behaviour ends switched on; bound keys stay bound; besides the registry, only the component the registry bound under the descriptor's ZUID may be written, and entries added or replaced hold fresh objects |
| Load.LoadIntoOwner | Scripts/Runtime/ZSerialize.cs:417-446 | once the owner is known: the fault when a component must be added without a game object or a node record's component is not a node, the added component with its ids, the exact resulting registry, the node restore and the behaviour switched on; only the registry and the component already bound may be written |
| Load.LoadTupleComponents | Scripts/Runtime/ZSerialize.cs:479-489 | a fault names the ZUID of one of the record's descriptors; when the pass gets through a record, every descriptor that is a node's or whose game object was live at the start of the record ends with its component and its game object bound; besides the registry, only components bound under the record's ZUIDs may be written |
| Load.LoadComponents | Scripts/Runtime/ZSerialize.cs:461-491 | a record whose descriptor type cannot be resolved faults the pass (every other fault names the ZUID of a descriptor of a processed record and comes from `LoadIntoOwner`: a component to add whose GOZUID is bound to something other than a game object, a node record whose ZUID is bound to something other than a node); after a pass without fault, every descriptor of an `IZSerialize` record that is a node's, whose game object was live before the pass, or whose game object an earlier node record rebuilt, ends with its component and game object bound; besides the registry, only components bound under the loaded ZUIDs may be written |
| Load.RestoreTuple | Scripts/Runtime/ZSerialize.cs:509-526 | one record's descriptors are restored through the registry, which is not changed; this succeeds exactly when the record is restorable: every ZUID is registered and, when the descriptor type's `RestoreValues` sets any field, bound to a component of the record's type or a type derived from it, a destroyed one included; only those components may be written |
| Load.RestoreDescriptors | Scripts/Runtime/ZSerialize.cs:510-518 | the loop over one record stops at the first descriptor it cannot get through and succeeds exactly when it gets through all of them; each write keeps every component at the values of its last write |
| Load.RestoreDescriptor | Scripts/Runtime/ZSerialize.cs:512-517 | the cast and the generated `RestoreValues` succeed exactly when the bound component is of the record's type or a derived one |
| Load.FieldlessRecordRestorable | Scripts/Editor/ZSerializerEditor.cs:196-201 | a record whose generated `RestoreValues` sets no field is restorable exactly when its ZUIDs are registered, whatever they are bound to |
| Load.DerivedComponentFits | Scripts/Editor/ZSerializerEditor.cs:196-201 | a component of a type derived from the record's component type accepts the field writes |
| Load.WriteBack | Scripts/Runtime/ZSerialize.cs:511-517 | one descriptor's values are written onto the component its ZUID is bound to, keeping every component at the values of its last write |
| Load.DestroyedComponentsAreRestorable | Scripts/Runtime/ZSerialize.cs:399-409 | a record whose components were destroyed is unbound for pass A (so its records are skipped there) yet restorable in pass B, where the cast yields the destroyed components |
| Load.WriteKeepsLastWins | Scripts/Runtime/ZSerialize.cs:509-517 | a later write to a component hides earlier writes to the same component and no other |
| Load.LoadReferences | Scripts/Runtime/ZSerialize.cs:495-528 | node records are skipped; the pass succeeds exactly when every other record is restorable (a record whose `RestoreValues` sets no field needs only registered ZUIDs, and a component of a derived type is accepted); then every component holds the values of the last descriptor written to it; only components bound under the written ZUIDs may be written |
| Ordering.Insert | Scripts/Runtime/ZSerialize.cs:267-269 | inserting into a sorted sequence keeps it sorted and adds exactly the element |
| Ordering.SortBy | Scripts/Runtime/ZSerialize.cs:267-269 | the result is sorted by the key and is a permutation of the input |
| Ordering.InsertStable | Scripts/Runtime/ZSerialize.cs:267-269 | insertion places an element after every element with the same key |
| Ordering.SortByStable | Scripts/Runtime/ZSerialize.cs:267-269 | elements with equal keys keep their relative order |
| Ordering.OrderPersistentGameObjectsByLoadingOrder | Scripts/Runtime/ZSerialize.cs:263-280 | node descriptors come out sorted ascending by `loadingOrder.x` then `loadingOrder.y`, as a permutation of the input |
| Ordering.LoadingOrderStable | Scripts/Runtime/ZSerialize.cs:267-269 | descriptors with the same loading order keep their input order |
| Ordering.LegacyOrderByLoadingOrder | Scripts/Runtime/ZSave.cs:186-204 | node descriptors come out sorted ascending by `loadingOrder`, as a permutation of the input |
| Ordering.LegacyOrderStable | Scripts/Runtime/ZSave.cs:194-195 | descriptors with the same loading order keep their input order |
| Pacing.CountBatches | Scripts/Runtime/ZSerialize.cs:245-257 | in sync mode the counter reaches n with no yield; in async mode it yields n div maxBatchCount times and ends at n mod maxBatchCount (every item yields when maxBatchCount is not positive) |
| Save.ShouldBeSerialized | Scripts/Runtime/ZSerialize.cs:301-304 | only a live behaviour that is on is taken; a live, switched-on behaviour of the current group is always taken; a real group takes only its own behaviours |
| Save.AllGroupsTakesEveryOnBehaviour | Scripts/Runtime/ZSerialize.cs:301-304 | with group -1 a behaviour is serialized exactly when it exists and is on |
| Save.GroupsAreDisjoint | Scripts/Runtime/ZSerialize.cs:301-304 | for a real group a behaviour is serialized only if it is in that group, and so never for two different groups |
| Save.DistinctIDs | Scripts/Runtime/ZSerialize.cs:621-623 | the group ids to save have no duplicates and are exactly those present |
| Save.EveryOnBehaviourSavedOnce | Scripts/Runtime/ZSerialize.cs:618-636 | when no behaviour of the scene is in group -1, saving all groups serializes every switched-on behaviour in exactly one round |
| Save.Selected | Scripts/Runtime/ZSerialize.cs:635-636 | the behaviours picked for a round are exactly the scene's behaviours that should be serialized |
| Save.SetUpPrefix | Scripts/Runtime/ZSerialize.cs:638-645 | the length of the leading run of behaviours with a ZUID and a GOZUID; the next one lacks one |
| Save.MarkSaving | Scripts/Runtime/ZSerialize.cs:647-648 | the behaviour is marked as saving and nothing else of it changes |
| Save.MarkSelected | Scripts/Runtime/ZSerialize.cs:638-650 | every behaviour before the first one without ids is marked; the call fails exactly when such a behaviour exists, which is not marked |
| Save.PrepareGroupForSave | Scripts/Runtime/ZSerialize.cs:633-650 | the selected behaviours are marked up to the first one without ids, which raises the fault; nothing but `isSaving` changes |
| Save.UnmarkSaving | Scripts/Runtime/ZSerialize.cs:680 | the behaviour is no longer saving and nothing else of it changes |
| Save.FinishGroupSave | Scripts/Runtime/ZSerialize.cs:678-682 | after a round no selected behaviour is saving; nothing else changes |
| Legacy.RetargetSame | Scripts/Runtime/ZSave.cs:604-613 | retargeting an id to itself leaves the table unchanged |
| Legacy.RetargetForgetsPrevious | Scripts/Runtime/ZSave.cs:604-613 | after retargeting to a different id, no key refers to the previous id |
| Legacy.RetargetChain | Scripts/Runtime/ZSave.cs:604-613 | retargeting a to b and then b to c, with b unused, is retargeting a to c |
| Legacy.ZSave.RecordTempID | Scripts/Runtime/ZSave.cs:604-613 | every value equal to the previous id becomes the new id; keys and all other values are unchanged |
| Legacy.ZSave.RecordAllPersistentIDs | Scripts/Runtime/ZSave.cs:581-602 | ids are added mapping to themselves, in order; the call fails exactly when an id repeats or is already present, stopping at that id; on success every id maps to itself |
| Legacy.ApplyReplacements | Scripts/Runtime/ZSave.cs:257-262 | the replacements are applied in array order, each to the previous step's result |
| Legacy.ReplaceInOrderDropSameLast | Scripts/Runtime/ZSave.cs:259-262 | a final pair that replaces a pattern by itself changes nothing |
| Legacy.ReplaceInOrder | Scripts/Runtime/ZSave.cs:257-262 | when each pattern is replaced by itself (the patterns are the leading replacements), the text comes back unchanged |
| Legacy.ZSave.UpdateAllJSONFiles | Scripts/Runtime/ZSave.cs:249-268 | every `.save` file is rewritten with the ordered replacements; other files are unchanged |
| Legacy.RewriteFilesIdentity | Scripts/Runtime/ZSave.cs:249-268 | rewriting with identical pattern lists leaves every file as it was |
| Legacy.ComponentPatterns | Scripts/Runtime/ZSave.cs:273-277 | the two component reference patterns, both non-empty |
| Legacy.GameObjectPatterns | Scripts/Runtime/ZSave.cs:298-303 | the five game object reference patterns, all non-empty |
| Legacy.GameObjectReplacements | Scripts/Runtime/ZSave.cs:305-312 | five replacements, the last built from the previous id |
| Legacy.ParentFileIDNotRewritten | Scripts/Runtime/ZSave.cs:312 | because the parent `m_FileID` pair replaces the reference by itself, a game object rewrite equals rewriting with the first four pairs only |
| Legacy.SameIdRewritesNothing | Scripts/Runtime/ZSave.cs:270-330 | rewriting an id to itself leaves every file as it was |
| Legacy.ZSave.UpdateComponentInstanceIDs | Scripts/Runtime/ZSave.cs:270-293 | the table is retargeted only when not restoring; component references in every save file are rewritten |
| Legacy.ZSave.UpdateGameObjectInstanceIDs | Scripts/Runtime/ZSave.cs:295-330 | the table is retargeted only when not restoring; game object references in every save file are rewritten |
| Legacy.ZSave.RestoreTempIDs | Scripts/Runtime/ZSave.cs:615-622 | for each key in order, references to its current id are rewritten back to the key; the table is unchanged |
| Legacy.RestoreWithoutRebuildsIsIdentity | Scripts/Runtime/ZSave.cs:615-622 | when every key maps to itself, restoring leaves the save files as they were |
| Legacy.ZSave.LoadDestroyedGameObject | Scripts/Runtime/ZSave.cs:405-419 | the game object is rebuilt from its data, the table follows it to its new id, and its references are rewritten |
| Legacy.ZSave.LoadObjectsDynamically | Scripts/Runtime/ZSave.cs:421-474 | a non-node record with no component and no game object returns with nothing changed; a node record is rebuilt with both rewrites; a missing component is added and rewritten exactly when the engine returns one; a present component loads with nothing rewritten, unless it is a node record without a game object; the game object is `componentParent` whenever that is set; a loaded node, live or rebuilt, takes its transform from the data; of the owner, only its transform may be written |
| LegacyCopy.FieldIsSuitableForAssignment | Scripts/Runtime/ZSave.cs:53-65 | a property is assigned exactly when it is readable and writable, neither obsolete nor exempt from the serializable check, and not one of the six excluded names |
| LegacyCopy.ExcludedNamesNeverSuitable | Scripts/Runtime/ZSave.cs:53-65 | material, materials, sharedMaterial, mesh, tag and name are never assigned |
| LegacyCopy.LastMatch | Scripts/Runtime/ZSave.cs:219-226 | -1 exactly when no descriptor field has the name; otherwise the last index with that name |
| LegacyCopy.CopiedValueSnoc | Scripts/Runtime/ZSave.cs:219-226 | one more descriptor field wins for its own name and changes no other |
| LegacyCopy.CopyIdempotent | Scripts/Runtime/ZSave.cs:213-228 | copying the same descriptor twice gives what copying it once gives |
| LegacyCopy.CopyFieldsToFields | Scripts/Runtime/ZSave.cs:213-228 | every component field with a same-named descriptor field takes the last such value; the others are untouched |
| LegacyCopy.SuitableIndices | Scripts/Runtime/ZSave.cs:232-233 | exactly the suitable properties, in increasing order |
| LegacyCopy.CopyFieldsToProperties | Scripts/Runtime/ZSave.cs:230-247 | every suitable property with a same-named descriptor field takes the last such value; unsuitable properties are untouched |
| ClassStates.CompareFieldLists | Scripts/Editor/ZSerializerEditor.cs:322-336 | `Valid` exactly when both lists have the same length and agree pairwise on name and type; otherwise `NeedsRebuilding`, never `NotMade` |
| ClassStates.DescriptorFieldsUnmarked | Scripts/Editor/ZSerializerEditor.cs:315-316 | a descriptor none of whose fields is marked `NonZSerialized` is compared whole |
| ClassStates.GeneratedDescriptorAgrees | Scripts/Editor/ZSerializerEditor.cs:113-129 | a descriptor class that declares one field per selected field, followed by inherited fields marked `NonZSerialized`, compares as agreeing with the selected fields |
| SerializerEditor.GeneratedDescriptorIsValid | Scripts/Editor/ZSerializerEditor.cs:310-337 | a descriptor freshly generated from `GetFieldsThatShouldBeSerialized(t)` passes the field comparison, so `GetClassState` finds it `Valid` |
| SerializerEditor.ToUpper | Scripts/Editor/ZSerializerEditor.cs:551 | lower-case letters become upper-case; any other character is unchanged |
| SerializerEditor.FieldNameToInspectorName | Scripts/Editor/ZSerializerEditor.cs:541-567 | the loop's output is the inspector label of the field name |
| SerializerEditor.InspectorNameEmpty | Scripts/Editor/ZSerializerEditor.cs:541-567 | an empty name gives an empty label |
| SerializerEditor.InspectorNameFirst | Scripts/Editor/ZSerializerEditor.cs:549-553 | the first label character is the upper-cased first character |
| SerializerEditor.InspectorNameLength | Scripts/Editor/ZSerializerEditor.cs:541-567 | the label's length is the name's length plus the number of upper-case characters after the first |
| SerializerEditor.InspectorNamePrefix | Scripts/Editor/ZSerializerEditor.cs:547-564 | the label of a prefix is a prefix of the label |
| SerializerEditor.InspectorNamePiece | Scripts/Editor/ZSerializerEditor.cs:555-563 | each later character appears in order, as itself or, when upper-case, behind exactly one inserted space |
| SerializerEditor.GetFieldsThatShouldBeSerialized | Scripts/Editor/ZSerializerEditor.cs:278-307 | exactly the public fields not marked `NonZSerialized` (or forced), then the non-public fields with `SerializeField` and without `NonZSerialized`; all of a serializable, non-dictionary type |
| SerializerEditor.NonPublicNeedsSerializeField | Scripts/Editor/ZSerializerEditor.cs:294-304 | a selected non-public field carries `SerializeField` and not `NonZSerialized` |
| SerializerEditor.DictionariesNeverSelected | Scripts/Editor/ZSerializerEditor.cs:282-304 | a `Dictionary<,>` field is never selected |
| SerializerEditor.GetClassState | Scripts/Editor/ZSerializerEditor.cs:310-337 | `NotMade` exactly when `<FullName>ZSerializer` is absent; otherwise `Valid` exactly when its compared fields agree pairwise with the selected fields |
| SerializerEditor.AddRegenerated | Scripts/Editor/ZSerializerEditor.cs:1117-1129 | the regenerated ids and a node's component ids are offered to `TryAdd`: the registry keeps every binding and gains exactly those keys |
| SerializerEditor.VisitItem | Scripts/Editor/ZSerializerEditor.cs:1111-1135 | one behaviour's step keeps every registry binding; a behaviour without a ZUID changes nothing; one met for the first time only records its ids locally |
| SerializerEditor.OnHierarchyChanged | Scripts/Editor/ZSerializerEditor.cs:1106-1139 | the registry is only extended and never rebound, and when no ZUID repeats it is left as it was |
| SaverEditor.LegacyExpectedFields | Scripts/Editor/ZSaverEditor.cs:250-254 | exactly the public fields, then the base type's non-public fields, that are not marked `NonZSerialized` or are forced |
| SaverEditor.GetClassState | Scripts/Editor/ZSaverEditor.cs:242-271 | `NotMade` exactly when `<Name>ZSerializer` is absent; otherwise `Valid` exactly when its compared fields agree pairwise with the expected fields |
| SaverEditor.ResetGroupID | Scripts/Editor/ZSaverEditor.cs:526-530 | the group id becomes 0 when a reflection lookup reaches it; nothing else changes |
| SaverEditor.ResetAllGroupIDs | Scripts/Editor/ZSaverEditor.cs:519-531 | every behaviour whose group id is reachable is put back in group 0; nothing else changes |
| SaverEditor.SyncStop | Scripts/Editor/ZSaverEditor.cs:407-412 | the number of behaviours the propagation loop gets through before the first one whose group id it cannot reach |
| SaverEditor.SyncGroup | Scripts/Editor/ZSaverEditor.cs:405-413 | every behaviour of the type with auto-sync on, up to the stopping point, gets the new group; nothing else changes |
| SaverEditor.ChangeGroup | Scripts/Editor/ZSaverEditor.cs:398-413 | an unchanged choice changes nothing; with auto-sync off only the edited behaviour moves; with it on every behaviour of the type with auto-sync on moves, until one whose group id cannot be reached |

## Left out

- Encryption: the AES (FIPS 197) encryption and decryption of save files. The model's files hold plain text.
- File and directory I/O: writing, reading and deleting files, and `Directory.CreateDirectory` in `GetFilePath`. Only the path strings are modelled. The legacy save files are a map from name to text.
- Async scheduling: `Task.Run`, `Task.Yield` and `RunTask`. `Pacing.CountBatches` models the batch counter once; the same counter pattern appears in three loops, and the load and save passes omit it.
- Reflection and JSON:
  - `Activator.CreateInstance`, `MakeGenericMethod`, field lookups by name and `JsonUtility` are not modelled.
  - Descriptors are records and JSON is an opaque string.
  - `Type.GetType` of a record's type name is an explicit environment of assemblies and type kinds.
- The regex rewrites `ReplaceZUIDs` and `ReplaceInstanceIDs`. They depend on engine hash codes.
- `GetRuntimeSafeZUID`: it is random and floating point.
- Engine queries:
  - `FindObjectsOfType`, `GetComponentsInChildren`, `AddComponent` and `GetInstanceID` become parameters or fresh objects.
  - A type-filtered query is an exact type match, so subclasses of the queried type are not included.
- `GenerateEditorZUIDs` is the `regen` parameter of `SerializerEditor.OnHierarchyChanged`. The ids it invents are not modelled.
- `SerializerEditor.ToUpper`, `SerializerEditor.IsUpper`: ASCII letters only, not the full Unicode case tables of `Char.ToUpper`/`Char.IsUpper`.
- Type identity:
  - Field types are compared structurally, not as runtime type objects.
  - Whether a property's `SetValue` throws on an incompatible value is not modelled.
- `Legacy.ReplaceInOrder`, `Legacy.ZSave.UpdateAllJSONFiles`: these require at least as many replacements as patterns and non-empty patterns. Every caller passes such arrays; with an empty pattern `String.Replace` throws.
- `Groups.Combine`: the Unix `Path.Combine` with `/` as the only separator. A rooted second part, which replaces the first, and Windows `\` separators are not modelled.
- `Save.EveryOnBehaviourSavedOnce`: it assumes no behaviour is in group -1. The public `GroupID` setter allows -1; then the -1 round takes every switched-on behaviour again and `saveGroups[-1]` throws, which the model does not state.
- `String.Replace` prefix collisions: a reference to id `12` also matches inside id `123`. This is modelled as written; no property here excludes it.
- `PersistentGameObjects.MakePerfectlyValidGameObject`: the engine's own behaviour of `SetActive`, `isStatic` and tag validation is not modelled.
- `PersistentGameObjects.MakePerfectlyValidGameObject`, `Legacy.ZSave.LoadDestroyedGameObject`: the one-argument `SetParent` keeps the world transform, so under a scaled or rotated parent the engine adjusts the local values. The model treats reparenting as keeping the local transform, so its `localScale == size` holds as the engine's only when the new parent has unit scale or there is none.
- `Save.PrepareGroupForSave`: it calls no overridden `OnPreSave`. The base class's hooks `OnPreSave`, `OnPostSave`, `OnPreLoad` and `OnPostLoad` change no state, so a call to them changes nothing.
- The level save (`SaveLevel`) and the level and group loaders: they are file-selection wrappers around the passes that are modelled.
- Code generation of descriptor classes and editor scripts, all inspector drawing, and `PersistentGameObjectEditor.cs`: these are UI only.
- The loading order is an integer in `PersistentGameObject.cs`. The current runtime reads `loadingOrder.x` and `loadingOrder.y`, so the current sort uses a two-part key and the legacy sort an integer key.
- `LegacyCopy.CopyFieldsToProperties`: each property is modelled as independent storage. Engine properties that share state, such as `Transform.position` and `localPosition`, or `rotation`, `localRotation`, `eulerAngles` and `localEulerAngles`, change together in the engine, so a later write to one alias also changes the others. The model does not capture this aliasing, and its "last same-named value wins" holds only for properties without aliases.
- `SerializerEditor.GeneratedDescriptorIsValid`: the descriptor base class `ZSerializer.Internal.ZSerializer` is not part of this model. The lemma takes the fields it contributes as a parameter and assumes they carry `NonZSerialized`.
- A record whose type cannot be resolved makes the current runtime fault inside the `IZSerialize` filter. `Load.LoadComponents` models the fault, not a skip.
- `Load.RestoreValues`, `Load.RestoreTuple`: pass B writes into a destroyed component as into a live one. For a destroyed engine component the engine's property setters throw instead; that fault is not modelled.
