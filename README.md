# GameplayTag registry — a verified Dafny model

GameplayTag (Halluvision) keeps a registry of hierarchical tags addressed by dot
paths such as `Weapon.Melee.Sword`. Each tag is an object holding:

- an integer id, a label and a depth;
- the id of its parent, with 0 for a root;
- a list of child ids that may be null;
- a comment and an in-use flag.

The registry `GameplayTagCollection` holds three pieces of state:

- `tagsDic`, a dictionary from id to tag object;
- `iDs`, the list of every id it has handed out or loaded, which only grows;
- `tags`, a public snapshot list of the dictionary's values, rebuilt after each change.

The same objects are shared between `tags` and `tagsDic`. On top of this the
registry offers these operations:

- resolve a path against the snapshot;
- find or create the chain of tags a path spells;
- hand out the smallest unused id;
- add a tag by object or by path;
- remove by object, path or id;
- rename;
- set the in-use flag;
- look a tag up by id or by label;
- render an id back into its dot path.

Most mutations end by writing the registry to its file and then refreshing the
snapshot. There are three exceptions:

- `AddTag(tag, false)` refreshes without writing.
- `LoadFromJson` neither writes nor refreshes.
- `SetTagInUse` does nothing for an absent id. For a present id it calls only
  `WriteToFile`, which refreshes the snapshot first (line 137) and then writes, so
  nothing refreshes after the write.

Every refresh invokes the `onTagChanged` delegate. That invocation does nothing when
there is no subscriber, but the model counts it either way.

The model consists of four modules:

- `GameplayTagEntity` (`gameplay_tag.dfy`) models the tag as a Dafny class whose fields
  change in place, and `TagValue`, the value of those fields at one moment.
- `TagPath` (`tag_path.dfy`) models .NET's `string.Split('.')` and the dot-joining that
  hierarchy rendering performs, with both round trips proved.
- `TagRegistrySpec` (`registry_spec.dfy`) is the value-level specification:
  - id allocation (`FirstUnused`, `Allocate`);
  - path resolution (`ParsePrefix`, `Parse`);
  - the rendering walk (`Hops`, `Hierarchy`);
  - the plan that find-or-create makes (`PlanChain`);
  - what adding a path does to the dictionary and the id list (`ApplyPlan`, `AddPath`).

  It also holds the properties proved about these functions.
- `GameplayTagRegistry` (`gameplay_tag_collection.dfy`) models the registry as a class:
  - `tags: seq<GameplayTag>`, `ids: seq<int>` and `tagsById: map<int, GameplayTag>`;
  - a ghost `writeCount` for the file writes and a ghost `notifyCount` for the notifications.

  The public operations on the dictionary, loops included, are proved against the
  specification functions through `DicView()`: parsing, adding, removing, renaming,
  setting the in-use flag, look-ups and rendering. `DicView()` is the dictionary with
  each object replaced by its current value.

  Other members are stated on the objects themselves:
  - the constructor, which says which object is stored under which id;
  - the find-or-create loop (`NewChainTag`, `ChainElement`, `ChainFromParse`), which
    says which objects the chain holds; `GetOrCreateGameplayTagsFromString` ties that
    chain to `PlanChain`;
  - the snapshot operations (`LoadFromJson`, `ValuesToList`, `UpdateTagsArray`,
    `WriteToFile`, `WriteAndRefresh`), through the predicate `Synced()`, which says
    that `tags` lists exactly the dictionary's objects;
  - `GenerateNewID`, which is stated on the id list through `FirstUnused`.

Two exceptions the C# code can throw are modelled as `Failure` results:

- `KeyNotFoundException`, from the dictionary indexer on an absent key;
- `OverflowException`, from `new int[depth]` with a negative depth.

Two others are preconditions instead:

- the `ArgumentException` that `Dictionary.Add` throws on a duplicate id while
  loading (`Runtime/GameplayTagCollection.cs:55`) becomes the constructor's
  requirement of distinct ids;
- the `NullReferenceException` of `AddChild` on a null child list
  (`Runtime/GameplayTag.cs:37`) becomes its requirement of a non-null list.

### Behaviour of the code as written

In several places the code does something a reader might not
expect. The model follows the code in each of them.

- Removal is not cascading. `RemoveTag(int)` deletes one key and leaves its
  descendants in place with dangling parent ids (`RemoveTagByID`).
- Nothing links children. No operation calls `AddChild`, so adding a path leaves
  every child list as it was, and new tags have none (`ApplyPlanLeavesChildren`).
- An id in `iDs` is never handed out again while the registry lives. Removal does not
  shrink `iDs`, and allocation skips every id in it (`RemovedIdNotReissued`). A removed
  id is therefore not reissued, even though the smallest-free-id rule would allow it.
- Only ids in `iDs` are protected this way. The public `AddTag(tag)` can store a key
  that is missing from `iDs`, and `GenerateNewID` may then hand that key out. If
  `AddTag(path)` receives the key for a new tag, it skips storing that tag, because
  the key is already taken. The chain's leaf then renders as the old tag:
  `AddPathIdCollision` shows this with the key 1 stored as "X" and an empty id list.
  The ghost predicate `IdsCoverKeys` (every key is in the id list) excludes the
  collision. The constructor establishes it, and every mutator keeps it, except an
  `AddTag(tag)` whose id is not in the list.
- For tokens after the first, resolution checks the label of the tag stored under
  the candidate's parent id, not that parent's id. `ParentMatchedByLabel` shows a
  path that resolves to a child whose parent is a different tag with the same label.
- The notification fires on every snapshot refresh, not once per operation:
  - `AddTag(path)` fires it once per chain element and twice more at the end;
  - `RemoveTag` and `RenameTag` fire it twice;
  - on an absent id, `RemoveTag` and `RenameTag` still write the file and notify.
- A removed tag's children stay behind with a parent id that is no longer a key. A
  later path lookup that reaches such a child throws `KeyNotFound` from the parent
  lookup at line 164 (`ParseFailureWitness`). `AddTag(path)` and `RemoveTag(path)`
  then throw too. `OrphanedChildThrows` shows "A.B" resolving while the parent key 7
  is present, and throwing once 7 is removed.
- A `RemoveTag(path)` whose path does not resolve to its last token removes the key
  `-1` (normally absent), and still writes and notifies.

## Model

| member | source | states |
|---|---|---|
| GameplayTagEntity.GameplayTag.constructor | Runtime/GameplayTag.cs:26-33 | label, id, depth, parent id and comment (default "") are stored as passed; the child list stays null and `inUse` false |
| GameplayTagEntity.GameplayTag.AddChild | Runtime/GameplayTag.cs:35-38 | needs a non-null child list; appends exactly the child id at its end and changes no other field |
| TagPath.Split | Runtime/GameplayTagCollection.cs:144 | splitting gives at least one part, and no part contains a separator |
| TagPath.JoinSplit | Runtime/GameplayTagCollection.cs:144 | joining the parts of a split gives back the split string |
| TagPath.SplitJoin | Runtime/GameplayTagCollection.cs:144 | splitting the join of separator-free parts gives back the parts |
| TagPath.TerminatedThenPart | Runtime/GameplayTagCollection.cs:259-265 | the labels each followed by '.', then the own label, are the '.'-join of all of them |
| TagRegistrySpec.FirstUnused | Runtime/GameplayTagCollection.cs:205-215 | the id handed out is positive, not in the id list, and every smaller positive integer is in the list |
| TagRegistrySpec.FirstUnusedBound | Runtime/GameplayTagCollection.cs:207-214 | the search stops by \|ids\| + 1, so the `-1` fallback is unreachable |
| TagRegistrySpec.AllocateFreshIncreasing | Runtime/GameplayTagCollection.cs:205-215 | successive allocations are positive, absent from the starting list and strictly increasing, hence distinct |
| TagRegistrySpec.RemovedIdNotReissued | Runtime/GameplayTagCollection.cs:117-124 | an id in the id list (a removed key stays there) is not handed out by any number of later allocations, however the list grew |
| TagRegistrySpec.ParseShape | Runtime/GameplayTagCollection.cs:142-174 | a parse has one entry per token and at least one; once an entry is -1 every later entry is -1 |
| TagRegistrySpec.ScanAtFirstStop | Runtime/GameplayTagCollection.cs:154-169 | the scan for a token is decided by the first tag in list order that resolves it or whose parent lookup throws |
| TagRegistrySpec.ParseResolvedIsFirstCandidate | Runtime/GameplayTagCollection.cs:149-169 | a resolved entry is the id of the first tag in list order with the token's label and depth whose parent (for i > 0) carries the previous token's label |
| TagRegistrySpec.ParseUnresolvedHasNoCandidate | Runtime/GameplayTagCollection.cs:149-169 | when no tag has id -1, a scanned token left at -1 has no tag that resolves it |
| TagRegistrySpec.ParseFailureWitness | Runtime/GameplayTagCollection.cs:164 | a parse throws only KeyNotFound, and only when some tag with a later token's label and depth has a parent id that is not a key |
| TagRegistrySpec.ParsePadding | Runtime/GameplayTagCollection.cs:151-152 | after an entry stays -1 the loop stops and all remaining entries are -1 |
| TagRegistrySpec.ParentMatchedByLabel | Runtime/GameplayTagCollection.cs:164 | with two roots labelled "A", "A.B" resolves to the first root and to a "B" whose parent is the other root |
| TagRegistrySpec.OrphanedChildThrows | Runtime/GameplayTagCollection.cs:117-124 | a path that resolves through key 7 throws KeyNotFound once 7 is removed and its child stays behind |
| TagRegistrySpec.ChainRenders | Runtime/GameplayTagCollection.cs:240-266 | rendering the last element of a linked chain of tags gives back the dot-join of its labels |
| TagRegistrySpec.PlanChainWellFormed | Runtime/GameplayTagCollection.cs:176-203 | a find-or-create plan has the path's tokens and parse, resolved entries that are keys, and new ids that are the ones allocation hands out from the id list |
| TagRegistrySpec.PlanOfParse | Runtime/GameplayTagCollection.cs:176-203 | for a parse that succeeded, the chain keeps the resolved ids and continues with freshly allocated ones; the plan is made exactly when every resolved id is a key, and otherwise throws KeyNotFound |
| TagRegistrySpec.PlanChainLabels | Runtime/GameplayTagCollection.cs:184-200 | when the snapshot holds the dictionary's values, every resolved chain element is stored with label token i at depth i |
| TagRegistrySpec.InsertNewKeeps | Runtime/GameplayTagCollection.cs:72-81 | inserting the chain only adds keys that are absent and never replaces an existing entry |
| TagRegistrySpec.ApplyPlanKeys | Runtime/GameplayTagCollection.cs:83-94 | after adding a path every chain id is a key, and the keys are the old keys plus the chain's new ids |
| TagRegistrySpec.ApplyPlanKeepsEntries | Runtime/GameplayTagCollection.cs:83-94 | every existing entry survives unchanged, except a resolved leaf, whose comment alone is set |
| TagRegistrySpec.ApplyPlanLeavesChildren | Runtime/GameplayTagCollection.cs:83-94 | no child list is touched; old entries keep theirs and new ones have none |
| TagRegistrySpec.ApplyPlanPool | Runtime/GameplayTagCollection.cs:83-94 | the id list grows by exactly the allocated ids, and still holds every key if it did before |
| TagRegistrySpec.PlanNewIdsFresh | Runtime/GameplayTagCollection.cs:190-199 | the new chain ids are absent from the id list and pairwise distinct |
| TagRegistrySpec.ApplyPlanNewEntries | Runtime/GameplayTagCollection.cs:83-94 | when every key is in the id list, each created element is stored as created: its label is token i, its depth i, its parent the previous element (0 for a root), and the leaf carries the comment |
| TagRegistrySpec.ApplyPlanKeyConsistent | Runtime/GameplayTagCollection.cs:83-94 | adding a path keeps every entry stored under its own id |
| TagRegistrySpec.ApplyPlanChainLabels | Runtime/GameplayTagCollection.cs:83-94 | when every key is in the id list and the resolved elements carry their tokens' labels and depths, every chain element does after adding |
| TagRegistrySpec.AddPathChainLabels | Runtime/GameplayTagCollection.cs:83-94 | when every key is in the id list and the snapshot holds the dictionary's values, after adding a path element i of its chain is stored with label token i at depth i, whether it was created or resolved |
| TagRegistrySpec.ApplyPlanFreshRootRenders | Runtime/GameplayTagCollection.cs:240-266 | when every key is in the id list, a plan whose root did not resolve creates a linked chain whose leaf renders as the joined tokens |
| TagRegistrySpec.AddPathFreshRootRenders | Runtime/GameplayTagCollection.cs:83-94 | when every key is in the id list, adding a path whose root did not resolve makes the leaf render back as the path itself |
| TagRegistrySpec.AddPathOfPlan | Runtime/GameplayTagCollection.cs:83-94 | adding a path carries out exactly the plan find-or-create made, and the leaf's id differs from every other new id |
| TagRegistrySpec.AddPathCoversKeys | Runtime/GameplayTagCollection.cs:83-94 | adding a path keeps every key in the id list when every key was in it before |
| TagRegistrySpec.AddPathIdCollision | Runtime/GameplayTagCollection.cs:72-94 | with a key stored but missing from the id list, adding "Y" reallocates that key, leaves the dictionary unchanged, and the chain's leaf renders as the old tag |
| GameplayTagRegistry.GameplayTagCollection.ValidKeyConsistent | Runtime/GameplayTagCollection.cs:52-56 | a registry whose objects sit under their own ids has a value view in which every entry is stored under its own id |
| GameplayTagRegistry.GameplayTagCollection.constructor | Runtime/GameplayTagCollection.cs:40-57 | the loaded list becomes the snapshot; each tag's id is recorded in order and the tag is stored under it; the dictionary holds nothing else |
| GameplayTagRegistry.GameplayTagCollection.SyncedListsValues | Runtime/GameplayTagCollection.cs:217-221 | a refreshed snapshot lists exactly the dictionary's values, each once |
| GameplayTagRegistry.GameplayTagCollection.LoadFromJson | Runtime/GameplayTagCollection.cs:64-70 | "{}" clears the snapshot; other text replaces it with what the serializer decodes |
| GameplayTagRegistry.GameplayTagCollection.ValuesToList | Runtime/GameplayTagCollection.cs:219 | the list holds each dictionary object once, in an enumeration order left open |
| GameplayTagRegistry.GameplayTagCollection.UpdateTagsArray | Runtime/GameplayTagCollection.cs:217-221 | the snapshot lists exactly the dictionary's objects; the notification fires once |
| GameplayTagRegistry.GameplayTagCollection.WriteToFile | Runtime/GameplayTagCollection.cs:135-140 | refreshes the snapshot (one notification) and records one file write |
| GameplayTagRegistry.GameplayTagCollection.WriteAndRefresh | Runtime/GameplayTagCollection.cs:92-93 | the closing write and refresh: one file write, two notifications, a snapshot listing the dictionary, and an unchanged value view |
| GameplayTagRegistry.GameplayTagCollection.GenerateNewID | Runtime/GameplayTagCollection.cs:205-215 | returns the smallest positive integer not in the id list and appends it to the list; if every key was in the list, every key still is |
| GameplayTagRegistry.GameplayTagCollection.ParseStringTag | Runtime/GameplayTagCollection.cs:142-174 | returns the split tokens and the parse of the snapshot's values, or the exception a parent lookup throws |
| GameplayTagRegistry.GameplayTagCollection.AddTag | Runtime/GameplayTagCollection.cs:72-81 | stores the object only when its id is not a key; writes only when asked; refreshes the snapshot; if every key was in the id list, every key still is exactly when the object's id is in it |
| GameplayTagRegistry.GameplayTagCollection.RemoveTagByID | Runtime/GameplayTagCollection.cs:117-124 | the id is no longer a key and nothing else changes, descendants included, so the value view loses exactly that key; the file write and two notifications happen even for an absent id; if every key was in the id list, every key still is |
| GameplayTagRegistry.GameplayTagCollection.DropKey | Runtime/GameplayTagCollection.cs:119-120 | the guarded remove: exactly that key leaves the dictionary and its value view; objects under their own ids and keys covered by the id list stay so |
| GameplayTagRegistry.GameplayTagCollection.RemoveTag | Runtime/GameplayTagCollection.cs:96-103 | removes the key equal to the object's id, whichever object is stored there, and only that key of the value view; always writes and notifies; if every key was in the id list, every key still is |
| GameplayTagRegistry.GameplayTagCollection.RemoveTagFromString | Runtime/GameplayTagCollection.cs:105-115 | removes the key the parse's last entry names, which is -1 when the path did not resolve to its end; a throwing parse changes nothing; if every key was in the id list, every key still is |
| GameplayTagRegistry.GameplayTagCollection.RenameTag | Runtime/GameplayTagCollection.cs:126-133 | only the label of the stored object changes, and only when the id is a key: the value view is the old one with that entry relabelled; the dictionary and id list stay as they were; always writes and notifies |
| GameplayTagRegistry.GameplayTagCollection.SetTagInUse | Runtime/GameplayTagCollection.cs:268-275 | only the in-use flag changes: the value view is the old one with that entry's flag set when the id is a key, and otherwise the same; the file is written and the snapshot refreshed only when the id is a key; the dictionary and id list stay as they were |
| GameplayTagRegistry.GameplayTagCollection.GetTagByID | Runtime/GameplayTagCollection.cs:223-228 | null exactly when the id is not a key, and otherwise the very object stored under it |
| GameplayTagRegistry.GameplayTagCollection.GetTagIDByString | Runtime/GameplayTagCollection.cs:230-238 | returns a key whose tag carries the label, or -1 when none does (-1 can also be a key that carries it) |
| GameplayTagRegistry.GameplayTagCollection.NewChainTag | Runtime/GameplayTagCollection.cs:190-199 | creates a fresh tag with the next allocated id, the token as label, the index as depth, and the previous element's id (0 for a root) as parent |
| GameplayTagRegistry.GameplayTagCollection.ChainElement | Runtime/GameplayTagCollection.cs:186-199 | takes entry i of the id list: for a resolved id, the stored object, or KeyNotFound when the id is not a key; otherwise a new tag, whose id is written into entry i; the element is appended, and the loop's state holds for entry i + 1 |
| GameplayTagRegistry.GameplayTagCollection.ChainFromParse | Runtime/GameplayTagCollection.cs:184-200 | one element per token: the stored object for each resolved id and a fresh tag with the next allocated id for every other; a missing key throws before any id is allocated |
| GameplayTagRegistry.GameplayTagCollection.GetOrCreateGameplayTagsFromString | Runtime/GameplayTagCollection.cs:176-203 | carries out the find-or-create plan: it fails with the plan's exception and changes nothing, or returns the chain and adds exactly its new ids to the id list; the dictionary is untouched |
| GameplayTagRegistry.GameplayTagCollection.SetComment | Runtime/GameplayTagCollection.cs:87 | only the object's comment changes; the dictionary view changes only when that object is the one stored under its id |
| GameplayTagRegistry.GameplayTagCollection.CommentLeaf | Runtime/GameplayTagCollection.cs:87 | writing the leaf's comment sets it in the dictionary when the leaf resolved and otherwise only on the new object |
| GameplayTagRegistry.GameplayTagCollection.StoreChain | Runtime/GameplayTagCollection.cs:89-90 | storing the chain element by element inserts exactly the absent ids, keeps every stored object and notifies once per element |
| GameplayTagRegistry.GameplayTagCollection.ApplyChain | Runtime/GameplayTagCollection.cs:87-93 | the comment write, the stores, the file write and the refresh together produce the plan's dictionary, with one write and \|chain\| + 2 notifications |
| GameplayTagRegistry.GameplayTagCollection.AddChain | Runtime/GameplayTagCollection.cs:87-93 | handling a found-or-created chain gives the dictionary and id list that adding the path prescribes |
| GameplayTagRegistry.GameplayTagCollection.AddTagFromString | Runtime/GameplayTagCollection.cs:83-94 | the dictionary and id list become what adding the path prescribes, every stored object is kept, and the snapshot lists the dictionary; a throwing path changes nothing; a success keeps every key in the id list |
| GameplayTagRegistry.GameplayTagCollection.CollectParents | Runtime/GameplayTagCollection.cs:251-257 | fills the buffer with the ids met by as many parent hops as it is long, or fails with the lookup that throws |
| GameplayTagRegistry.GameplayTagCollection.GetTagStringHierarchy | Runtime/GameplayTagCollection.cs:240-266 | "" for an absent id, the bare label at depth 0, otherwise the labels of `depth` parent hops root first, each followed by '.', then the own label; a missing parent throws |

## Left out

- File I/O (`Runtime/GameplayTagFile.cs`) is not modelled. A write to the tag file is
  recorded only by the ghost `writeCount`.
- JSON serialization is not modelled. `ToJson` is left out. In `LoadFromJson`, the
  tags the Unity serializer would decode are a parameter.
- The `onTagChanged` delegate and its subscribers are not modelled. The ghost
  `notifyCount` counts each invocation at line 220, even one that calls nothing
  because there is no subscriber.
- LoadFromJson: "{}" clears the list object in place (line 69), but the model assigns
  an empty `tags`. The model therefore misses that a holder of the old list object
  sees it cleared.
- The lazy `Instance` singleton and the file read in `Initialize` are not modelled.
  The constructor takes the loaded tag list instead. It requires distinct ids,
  because `Dictionary.Add` throws on a duplicate.
- The `Mathf.Infinity` float bound of `GenerateNewID` is not modelled. The loop runs
  until the first unused id, which is proved to be at most |ids| + 1.
- The enumeration order of the .NET dictionary is not fixed. The snapshot order and
  the order `GetTagIDByString` searches are left open: any key with the label may be
  returned.
- Every mutator that changes the dictionary or a stored tag requires `Valid()`: each
  stored object's `ID` equals its key. The C# does not check this. It holds because
  no code in the registry writes `ID` on a stored tag. But `ID` is a public field, and `GetTagByID` hands out the stored object, so
  outside code could break it. The model does not cover that case.
- The parameterless `GameplayTag()` constructor is left out because it is used only
  by the serializer.
- Null is modelled in two places: the child list may be null (`None`), and the null
  that `GetTagByID` returns for an absent id is `None`. Null strings, a null snapshot
  (whose guard is at line 147) and null tag objects are left out. Apart from the dead `_root`
  below, the live code passes no null to these operations.
- The `_root` tag that find-or-create builds at line 182, with a null label, is never
  used, so it is left out.
- The loops of `GetOrCreateGameplayTagsFromString`, `AddTag(path)` and
  `GetTagStringHierarchy` form separate methods (`ChainFromParse`, `StoreChain`,
  `CollectParents`), and so does the body of the find-or-create loop (`ChainElement`).
  Each is called once, in the place of the loop. The guarded `tagsDic.Remove` that
  `RemoveTag(int)` performs (lines 119-120) is the method `DropKey`. The closing pair `WriteToFile();
  UpdateTagsArray();` (lines 92-93, 101-102, 113-114, 122-123 and 131-132) is one
  method, `WriteAndRefresh`.
- AddTagFromString: its contract states the new dictionary in values (`DicView`), plus
  which objects are kept. It does not say that the objects stored under the new keys
  are freshly allocated.
- The Editor GUI (`Editor/*`), the runtime example under `Tests/` and the property
  attribute are outside the registry code, so they are not modelled.
