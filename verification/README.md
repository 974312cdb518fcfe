# Object pool for Unity game objects, modelled in Dafny

This project models the object-pooling engine of the DrawAndRun game
(`Assets/Additional/_MyAdditional/Pool/`).

The engine has two parts.

`GameObjectPool` is the pool for one prefab:
- It keeps an active list (the clones it has handed out) and a free list (the clones it has taken back).
- A spawn pops the free list from its end. It drops the clones that were destroyed behind the pool's back and reuses the first live one (last in, first out). When no free clone is live, it instantiates a new one.
- A despawn moves an active clone to the end of the free list.
- A process-wide prefab map keeps at most one pool per prefab. The first pool to register a prefab keeps it, and a pool only unregisters a mapping that points at itself.

`Pool` is the static client API. Its `links` map records, for each spawned clone, the pool it came from:
- `Spawn` finds or creates the prefab's pool, spawns from it and records the link.
- `Despawn` removes the link and hands the clone back to its pool.
- `DespawnAll` drains every link.
- `Detach` forgets a link without touching any pool.

The model is in five files:

- `handles.dfy` (module `Handles`) defines clones and prefabs as opaque ids. A null reference is `None`. Each warning the code logs is a returned `Report`.
- `pool_lists.dfy` (module `PoolLists`) holds the two lists of a pool as a value (`Lists`). It defines the pure list effect of a spawn (`SpawnStep`, built on the free-list scan `ScanFree`) and of a despawn (`DespawnStep`, built on `RemoveFirst`, the model of `List<T>.Remove`). The lemmas state what those steps promise.
- `registration.dfy` (module `Registration`) holds the registration rules of the prefab map, as functions on maps.
- `pooling.dfy` (module `Pooling`) holds the two stateful classes, proved against the functions above:
  - `GameObjectPool` has the two lists as `seq` fields, updated in place.
  - `Registry` stands for the static state. It holds the prefab map, the link map and the engine's factory of new clones (a counter). It also has two ghost fields: `pools` (every pool built on it) and `owner` (the pool that created each clone).
  - `Registry.Valid` is the structural invariant: lists duplicate-free and disjoint, every clone owned by its pool, every mapped pool managing its prefab.
  - `Registry.LinksActive` states that a link exists only for a clone that is active in its pool. The client operations keep it. Under it, `Spawn` never reports a double spawn.
- `scenarios.dfy` (module `Scenarios`) holds client sessions on a fresh registry. The despawn-then-spawn round trip is stated at the registry level, with the concrete sessions built on it.

Whether a clone has been destroyed (Unity's overloaded `== null`) is a parameter: the set `destroyed` passed to a spawn. Engine calls (`Instantiate`, `AddComponent`) are the registry's counter and the pool constructor.

## Model

| member | source | states |
|---|---|---|
| Pooling.GameObjectPool.Total | Assets/Additional/_MyAdditional/Pool/GameObjectPool.cs:33 | While the lists are duplicate-free and disjoint, `Total` is the number of distinct clones the pool holds |
| PoolLists.TotalCountsClones | Assets/Additional/_MyAdditional/Pool/GameObjectPool.cs:33 | Under the list invariant, `Total` (active count plus free count) is the number of distinct clones the pool holds |
| PoolLists.RemoveFirst | Assets/Additional/_MyAdditional/Pool/GameObjectPool.cs:133 | `List.Remove`: a list without the clone comes back unchanged; otherwise the result is one shorter |
| PoolLists.RemoveFirstCounts | Assets/Additional/_MyAdditional/Pool/GameObjectPool.cs:133 | Removal takes out exactly one occurrence and keeps every other entry as often as it occurred |
| PoolLists.RemoveFirstSplits | Assets/Additional/_MyAdditional/Pool/GameObjectPool.cs:133 | Removal cuts out the first occurrence and keeps the order of everything else |
| PoolLists.Without | Assets/Additional/_MyAdditional/Pool/GameObjectPool.cs:133 | The filter keeps the entries outside the removed set, in their order, and every one of them; with nothing to remove it returns the list unchanged |
| PoolLists.ElemsWithout | Assets/Additional/_MyAdditional/Pool/GameObjectPool.cs:133 | The filtered list holds exactly the old entries minus the removed set |
| PoolLists.WithoutOneMore | Assets/Additional/_MyAdditional/Pool/GameObjectPool.cs:133 | On a duplicate-free list, filtering out one more clone is `List.Remove` of that clone from the filtered list, so repeated removals are the filter |
| PoolLists.RemoveFirstKeepsNoDup | Assets/Additional/_MyAdditional/Pool/GameObjectPool.cs:133 | On a duplicate-free list, removal keeps it duplicate-free and removes that clone and no other |
| PoolLists.ScanFree | Assets/Additional/_MyAdditional/Pool/GameObjectPool.cs:66-78 | The scan pops from the end. What is left is a prefix of the free list. Every entry popped before the found clone was destroyed, and the found clone is live. When nothing is found, every entry was destroyed and the list ends empty |
| PoolLists.SpawnStep | Assets/Additional/_MyAdditional/Pool/GameObjectPool.cs:66-86 | A created clone is the factory's new one; a reused clone comes from the free list and is live |
| PoolLists.SpawnKeepsInv | Assets/Additional/_MyAdditional/Pool/GameObjectPool.cs:66-86 | A spawn keeps both lists duplicate-free and disjoint, provided the factory's clone is new. The handed-out clone ends the active list, and the total grows by one less what the scan dropped |
| PoolLists.SpawnClonesWithin | Assets/Additional/_MyAdditional/Pool/GameObjectPool.cs:66-86 | A spawn brings in no clone except the one it hands out. A reused clone comes from the free list; a created one is the factory's |
| PoolLists.ReusesLastFree | Assets/Additional/_MyAdditional/Pool/GameObjectPool.cs:66-76 | LIFO reuse: a live last free entry is handed out. It moves from the end of the free list to the end of the active list, and the total is unchanged |
| PoolLists.SpawnDropsOnlyDestroyed | Assets/Additional/_MyAdditional/Pool/GameObjectPool.cs:66-78 | Entries popped besides the reused clone were destroyed and are in neither list afterwards. Entries below it are untouched, and a destroyed clone is never reused |
| PoolLists.CreatesOnlyWhenNoLiveFree | Assets/Additional/_MyAdditional/Pool/GameObjectPool.cs:80-86 | A clone is created exactly when every free entry was destroyed. It is appended to the active list, and the free list ends empty |
| PoolLists.DespawnStep | Assets/Additional/_MyAdditional/Pool/GameObjectPool.cs:133-139 | A despawn keeps the total. An active clone is appended to the free list; any other clone leaves both lists as they were |
| PoolLists.DespawnKeepsInv | Assets/Additional/_MyAdditional/Pool/GameObjectPool.cs:131-142 | A despawn keeps the invariant and the total. An active clone leaves the active list and goes to the end of the free list; any other clone changes nothing |
| PoolLists.DespawnThenSpawnReuses | Assets/Additional/_MyAdditional/Pool/GameObjectPool.cs:131-142 | Round trip: after despawning a live active clone, the next spawn hands back that clone, creates nothing, and leaves the older free entries alone |
| Registration.Register | Assets/Additional/_MyAdditional/Pool/GameObjectPool.cs:156-165 | A null prefab or an already mapped prefab leaves the map as it was. Otherwise the prefab is mapped to the pool and every other mapping is kept |
| Registration.Unregister | Assets/Additional/_MyAdditional/Pool/GameObjectPool.cs:146-154 | The prefab's mapping is removed only when it points at this pool; every other mapping is kept |
| Registration.FirstRegistrantWins | Assets/Additional/_MyAdditional/Pool/GameObjectPool.cs:158-163 | A second registration of a prefab changes nothing; the first pool keeps it |
| Registration.UnregisterUndoesRegister | Assets/Additional/_MyAdditional/Pool/GameObjectPool.cs:146-165 | Registering an unmapped prefab and then unregistering it restores the map |
| Registration.UnregisterSparesOthers | Assets/Additional/_MyAdditional/Pool/GameObjectPool.cs:152-153 | A pool cannot remove a mapping that points at another pool |
| Pooling.GameObjectPool.constructor | Assets/Additional/_MyAdditional/Pool/Pool.cs:48 | A new pool component starts with no prefab and two empty lists |
| Pooling.GameObjectPool.SetPrefab | Assets/Additional/_MyAdditional/Pool/GameObjectPool.cs:16-31 | Setting the current value changes nothing. A new value becomes unregister-then-register on the map, and the duplicate warning fires exactly when another pool holds the prefab. The registry invariant is kept |
| Pooling.GameObjectPool.UnregisterPrefab | Assets/Additional/_MyAdditional/Pool/GameObjectPool.cs:146-154 | The map becomes `Unregister` of the old map; afterwards no prefab maps to this pool |
| Pooling.GameObjectPool.RegisterPrefab | Assets/Additional/_MyAdditional/Pool/GameObjectPool.cs:156-165 | The map becomes `Register` of the old map, and the warning fires exactly when the prefab was already mapped |
| Pooling.GameObjectPool.DetachActive | Assets/Additional/_MyAdditional/Pool/GameObjectPool.cs:51-52 | Exactly the links of the active clones are removed. While every link is for an active clone, no link points at this pool afterwards |
| Pooling.GameObjectPool.OnDestroy | Assets/Additional/_MyAdditional/Pool/GameObjectPool.cs:48-55 | The active clones' links are removed, and the prefab's mapping is removed whichever pool it points at. Both registry invariants are kept |
| Pooling.GameObjectPool.Teardown | Assets/Additional/_MyAdditional/Pool/GameObjectPool.cs:48-55 | Corrected teardown: as `OnDestroy`, but the mapping is removed only when it points at this pool. Every other pool's mapping is kept |
| Pooling.GameObjectPool.TrySpawn | Assets/Additional/_MyAdditional/Pool/GameObjectPool.cs:59-87 | Without a prefab, nothing changes. Otherwise the lists become `SpawnStep` of the old lists and the factory advances only when a clone is created. The clone comes from the free list or is the new one, and the list invariant is kept |
| Pooling.GameObjectPool.SpawnClone | Assets/Additional/_MyAdditional/Pool/GameObjectPool.cs:90-105 | The reused clone is appended to the active list |
| Pooling.GameObjectPool.CreateClone | Assets/Additional/_MyAdditional/Pool/GameObjectPool.cs:109-115 | The factory returns a clone no one has seen, created by this pool |
| Pooling.GameObjectPool.Despawn | Assets/Additional/_MyAdditional/Pool/GameObjectPool.cs:120-129 | A null clone is reported and changes nothing. Otherwise the lists become `DespawnStep` of the old lists; the warning fires exactly when the clone was not active |
| Pooling.GameObjectPool.TryDespawn | Assets/Additional/_MyAdditional/Pool/GameObjectPool.cs:131-142 | The lists become `DespawnStep` of the old lists. The total and the set of clones are unchanged, and the warning fires exactly when the clone was not active |
| Pooling.Registry.constructor | Assets/Additional/_MyAdditional/Pool/Pool.cs:10 | Empty prefab and link maps; both invariants hold |
| Pooling.Registry.Instantiate | Assets/Additional/_MyAdditional/Pool/GameObjectPool.cs:111-114 | The factory hands out the next unused id and records its creating pool |
| Pooling.Registry.TryFindPoolByPrefab | Assets/Additional/_MyAdditional/Pool/GameObjectPool.cs:42-45 | A pool is found exactly when the prefab is mapped. It is the mapped pool, and under the invariant it manages that prefab |
| Pooling.Registry.Spawn | Assets/Additional/_MyAdditional/Pool/Pool.cs:36-71 | A null prefab is reported and changes nothing. A mapped prefab's pool spawns by `SpawnStep` and no pool is created. An unmapped prefab gets one new registered pool holding just the new clone. The clone is linked to its pool, and only that link changes. A replaced link is reported; under `LinksActive` that never happens |
| Pooling.Registry.PoolFor | Assets/Additional/_MyAdditional/Pool/Pool.cs:45-51 | The mapped pool, or a new one registered for the prefab with empty lists, and only when none was mapped |
| Pooling.Registry.SpawnFrom | Assets/Additional/_MyAdditional/Pool/Pool.cs:53-67 | The pool spawns by `SpawnStep` and the clone is linked to it, with the warning iff it already had a link |
| Pooling.Registry.TakeFrom | Assets/Additional/_MyAdditional/Pool/Pool.cs:56 | The pool's spawn keeps the registry invariant. Under `LinksActive` the clone handed out has no link yet |
| Pooling.Registry.Link | Assets/Additional/_MyAdditional/Pool/Pool.cs:58-65 | The clone's link is set to the pool, replacing and reporting an existing one; all other links are unchanged |
| Pooling.Registry.NoLinkForSpawnable | Assets/Additional/_MyAdditional/Pool/Pool.cs:58-62 | While every link is for an active clone, the clone a pool hands out next has no link |
| Pooling.Registry.Despawn | Assets/Additional/_MyAdditional/Pool/Pool.cs:75-95 | A null clone, or one without a link, is reported and changes neither the links nor any pool. Otherwise exactly that link is removed and its pool despawns the clone by `DespawnStep` |
| Pooling.Registry.DespawnLinked | Assets/Additional/_MyAdditional/Pool/Pool.cs:84-90 | The link is removed and the linked pool's lists become `DespawnStep` of its old lists. The warning fires exactly when the clone was not active in that pool |
| Pooling.Registry.DespawnAll | Assets/Additional/_MyAdditional/Pool/Pool.cs:97-108 | Afterwards there are no links. Each pool's active list is its old one without the clones linked to it, in the same order. Those that were active joined the free list, the old free list is a prefix of the new one, the total is unchanged, and a pool with no links is untouched. One report per link, and a warning exactly for each link whose clone was not active; while every link is for an active clone, there is none |
| Pooling.Registry.DespawnRounds | Assets/Additional/_MyAdditional/Pool/Pool.cs:99-107 | The loop runs once per link and leaves none. It keeps the progress relation to the snapshot taken before it, and its reports warn exactly for the stale links |
| Pooling.Registry.DespawnRound | Assets/Additional/_MyAdditional/Pool/Pool.cs:101-106 | One iteration removes one link, keeps the progress relation, and appends one report, a warning exactly when that link was stale |
| Pooling.Registry.DespawnOne | Assets/Additional/_MyAdditional/Pool/Pool.cs:105-106 | Removing one link and despawning its clone keeps the progress relation. The report is quiet exactly when the clone was active in the snapshot |
| Pooling.Registry.CountRound | Assets/Additional/_MyAdditional/Pool/GameObjectPool.cs:133-137 | Appending that report keeps the count: the warnings are exactly the stale links already handled |
| Pooling.Registry.ProgressComplete | Assets/Additional/_MyAdditional/Pool/Pool.cs:99-107 | Once no link is left, the progress relation gives each pool's final active list (the snapshot without its linked clones, in order), its free set, and an unchanged total |
| Pooling.Registry.Detach | Assets/Additional/_MyAdditional/Pool/Pool.cs:114-118 | Removes only that clone's link and touches no pool; a null clone is reported |
| Scenarios.SpawnThree | Assets/Additional/_MyAdditional/Pool/Pool.cs:36-71 | Three spawns of a new prefab create exactly one pool, and it holds the three clones handed out, active, with none free |
| Scenarios.DespawnThenSpawn | Assets/Additional/_MyAdditional/Pool/Pool.cs:75-95 | Despawning a linked live clone leaves one active clone fewer and one free clone more. Spawning its prefab again returns that clone. Both calls are quiet, no clone is created, and the links are as before |
| Scenarios.SpawnThreeThenReuse | Assets/Additional/_MyAdditional/Pool/Pool.cs:36-71 | Three spawns of a new prefab give three distinct clones, total 3 and none free. Despawning the second leaves two active and one free, and spawning again returns the second, with the total still 3 |
| Scenarios.SecondPoolForSamePrefab | Assets/Additional/_MyAdditional/Pool/GameObjectPool.cs:156-165 | A second pool for a mapped prefab is reported, and lookup still finds the first pool |
| Scenarios.DetachThenDespawn | Assets/Additional/_MyAdditional/Pool/Pool.cs:114-118 | After a detach, a despawn of the clone is reported and the clone stays active in its pool |
| Scenarios.DespawnAllOfOne | Assets/Additional/_MyAdditional/Pool/Pool.cs:97-108 | `DespawnAll` after one spawn moves the clone to the free list, with one quiet report, and leaves no link |
| Scenarios.OneSwept | Assets/Additional/_MyAdditional/Pool/Pool.cs:97-108 | What `DespawnAll` promises of a pool with one linked active clone: no clone active, that clone free, and one quiet report |
| Scenarios.DespawnAllThenDespawn | Assets/Additional/_MyAdditional/Pool/Pool.cs:97-108 | After `DespawnAll` the linked clone is free in its pool and its despawn was quiet; a further despawn of it is reported |
| Scenarios.DuplicateOnDestroyUnmapsFirst | Assets/Additional/_MyAdditional/Pool/GameObjectPool.cs:54 | Destroying a pool that lost the registration leaves the prefab unmapped, although the first pool still manages it |
| Scenarios.DuplicateTeardownKeepsFirst | Assets/Additional/_MyAdditional/Pool/GameObjectPool.cs:54 | With the owner-checked teardown, lookup still finds the first pool |

## Left out

- Placement is not modelled: position, rotation, parent, `SetParent`, `MoveGameObjectToScene`, and the `Spawn` overloads at `Pool.cs:14-33` that convert world placement before calling the five-argument `Spawn`. This is floating-point scene-graph work on engine calls.
- `SetActive` on clones is not modelled. Whether a clone is active is given by the active list alone.
- Log output is not modelled. Each `Debug.LogWarning`/`LogError` is the returned `Report`, and message text and context objects are dropped. `DespawnAll` returns the reports of its rounds as a sequence.
- Unity's overloaded null is not modelled. A destroyed clone is one in the `destroyed` set passed to a spawn. Destroyed but non-null arguments to `Despawn` and `Detach`, and the `Equals(_prefab, null)` versus `!= null` distinction for a destroyed prefab, are treated like live objects.
- Pooling.Registry.DespawnAll: the source always takes the last entry of the dictionary (`ElementAt(links.Count - 1)`). .NET does not specify dictionary order, so the model picks any remaining link and proves the result for every order.
- Pooling.Registry.DespawnAll: the source removes the link and calls the pool's `Despawn` directly. The model calls `DespawnLinked`, which does the same two steps.
- Pooling.Registry.TryFindPoolByPrefab: a prefab id is never null here, so the `ArgumentNullException` that .NET's `Dictionary.TryGetValue(null)` throws (`GameObjectPool.cs:44`) is not modelled. `Spawn` rejects a null prefab before its lookup, so only an outside caller passing null could reach it.
- Pooling.GameObjectPool.OnDestroy: with no prefab set, .NET's `Dictionary.Remove(null)` throws after the detach loop. The model leaves the map unchanged instead.
- Engine callbacks are not modelled: the engine invokes `OnDestroy`, and the model only offers it as a method. Destroying the pool's game object and serialisation of the lists are not modelled either.
- Concurrency is not modelled. The code is single-threaded engine code.

## Findings

| source | as written | input that shows it | evidently intended | confidence | as-written member | corrected member |
|---|---|---|---|---|---|---|
| Assets/Additional/_MyAdditional/Pool/GameObjectPool.cs:54 | `OnDestroy` calls `_prefabMap.Remove(Prefab)` without checking that the mapping points at this pool | A pool registers prefab P. A second pool is set to P and loses the registration, with a warning. Destroying the second pool removes P's mapping, so lookup finds no pool while the first still manages P, and the next spawn of P creates a third pool | Remove the mapping only when it points at this pool, as `UnregisterPrefab` does, so the first registrant keeps its prefab | medium, not executed | Pooling.GameObjectPool.OnDestroy, Scenarios.DuplicateOnDestroyUnmapsFirst | Pooling.GameObjectPool.Teardown, Scenarios.DuplicateTeardownKeepsFirst |
