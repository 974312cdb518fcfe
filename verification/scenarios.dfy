/**
 * Client sessions against a fresh registry, each stating what its sequence of
 * calls returns. They exercise the pool and the client operations together.
 */
module Scenarios {
  import opened Handles
  import opened PoolLists
  import opened Pooling

  /** A fresh registry after one spawn of `prefab`: one pool, holding the one clone, linked to it. */
  method FirstSpawn(prefab: Prefab) returns (registry: Registry, pool: GameObjectPool, c: Clone)
    ensures fresh(registry) && fresh(pool)
    ensures registry.Valid() && registry.LinksActive() && registry.pools == {pool}
    ensures registry.prefabMap == map[prefab := pool] && registry.links == map[c := pool]
    ensures c == 0 && registry.nextClone == 1 && pool.State() == Lists([c], [])
  {
    registry := new Registry();
    var clone, report := registry.Spawn(Some(prefab), {});
    c := clone.value;
    pool := registry.links[c];
  }

  /** A spawn of a registered prefab whose pool has no free clone creates the next clone. */
  method SpawnNew(registry: Registry, prefab: Prefab, ghost pool: GameObjectPool) returns (c: Clone)
    requires registry.Valid() && registry.LinksActive()
    requires prefab in registry.prefabMap && registry.prefabMap[prefab] == pool && pool.despawned == []
    modifies registry, pool
    ensures registry.Valid() && registry.LinksActive()
    ensures c == old(registry.nextClone) && registry.nextClone == c + 1
    ensures pool.State() == Lists(old(pool.spawned) + [c], [])
    ensures registry.links == old(registry.links)[c := pool] && registry.prefabMap == old(registry.prefabMap)
    ensures registry.pools == old(registry.pools)
  {
    var clone, report := registry.Spawn(Some(prefab), {});
    c := clone.value;
  }

  /**
   * Three spawns of an unregistered prefab: exactly one pool is created, and
   * it holds the three clones handed out, all active, none free.
   */
  method SpawnThree(prefab: Prefab) returns (registry: Registry, pool: GameObjectPool, handles: seq<Clone>)
    ensures fresh(registry) && registry.Valid() && registry.LinksActive() && registry.pools == {pool}
    ensures registry.prefabMap == map[prefab := pool] && registry.nextClone == 3
    ensures handles == [0, 1, 2] && pool.State() == Lists(handles, [])
    ensures registry.links == map[0 := pool, 1 := pool, 2 := pool]
  {
    var h1, h2, h3;
    registry, pool, h1 := FirstSpawn(prefab);
    h2 := SpawnNew(registry, prefab, pool);
    h3 := SpawnNew(registry, prefab, pool);
    handles := [h1, h2, h3];
  }

  lemma Relinked<K, V>(m: map<K, V>, k: K)
    requires k in m
    ensures (m - {k})[k := m[k]] == m
  {
  }

  /**
   * Despawn then spawn through the client is a round trip: a linked clone that
   * is still alive is the clone the next spawn of its prefab hands back, with
   * no clone created and no warning.
   */
  method DespawnThenSpawn(registry: Registry, prefab: Prefab, h: Clone, destroyed: set<Clone>)
    returns (again: Option<Clone>, despawnReport: Report, spawnReport: Report, activeBetween: nat, freeBetween: nat)
    requires registry.Valid() && registry.LinksActive() && h !in destroyed
    requires prefab in registry.prefabMap && h in registry.links && registry.links[h] == registry.prefabMap[prefab]
    modifies registry, registry.prefabMap[prefab]
    ensures again == Some(h) && despawnReport == Quiet && spawnReport == Quiet
    ensures registry.nextClone == old(registry.nextClone) && registry.links == old(registry.links)
    ensures registry.prefabMap == old(registry.prefabMap)
    ensures registry.prefabMap[prefab].Total() == old(registry.prefabMap[prefab].Total())
    ensures activeBetween == |old(registry.prefabMap[prefab].spawned)| - 1
    ensures freeBetween == |old(registry.prefabMap[prefab].despawned)| + 1
  {
    ghost var pool := registry.links[h];
    ghost var before := pool.State();
    ghost var links0 := registry.links;
    despawnReport := registry.Despawn(Some(h));
    ghost var after := pool.State();
    activeBetween, freeBetween := |registry.prefabMap[prefab].spawned|, |registry.prefabMap[prefab].despawned|;
    DespawnThenSpawnReuses(before, h, destroyed, registry.nextClone);
    assert SpawnStep(after, destroyed, registry.nextClone).clone == h;
    assert prefab in registry.prefabMap && registry.prefabMap[prefab] == pool;
    again, spawnReport := registry.Spawn(Some(prefab), destroyed);
    Relinked(links0, h);
  }

  /**
   * Three spawns of an unregistered prefab hand out three distinct clones and
   * leave none free; despawning the second leaves two active and one free,
   * and spawning again hands the second back without creating a clone, so
   * the pool still holds three.
   */
  method SpawnThreeThenReuse(prefab: Prefab) returns (handles: seq<Clone>, total: nat, free: nat,
                                                      active: nat, freeBetween: nat, again: Option<Clone>,
                                                      totalAfter: nat)
    ensures |handles| == 3 && handles[0] != handles[1] && handles[1] != handles[2] && handles[0] != handles[2]
    ensures total == 3 && free == 0
    ensures active == 2 && freeBetween == 1
    ensures again == Some(handles[1]) && totalAfter == 3
  {
    var registry, pool;
    registry, pool, handles := SpawnThree(prefab);
    total, free := pool.Total(), |pool.despawned|;
    var r1, r2;
    again, r1, r2, active, freeBetween := DespawnThenSpawn(registry, prefab, handles[1], {});
    totalAfter := pool.Total();
  }

  /**
   * A second pool registered for a prefab that already has one is reported
   * once, and lookups still find the first pool.
   */
  method SecondPoolForSamePrefab(prefab: Prefab) returns (report: Report, firstFound: bool)
    ensures report == Warn(DuplicatePoolRegistration)
    ensures firstFound
  {
    var registry, first, c := FirstSpawn(prefab);
    var second := new GameObjectPool(registry);
    report := second.SetPrefab(Some(prefab));
    firstFound := registry.TryFindPoolByPrefab(prefab) == Some(first);
  }

  /**
   * A detached clone can no longer be despawned through the client: the
   * despawn is reported and its pool still lists it as active.
   */
  method DetachThenDespawn(prefab: Prefab) returns (report: Report, stillActive: bool)
    ensures report == Warn(MismatchedDespawn)
    ensures stillActive
  {
    var registry, pool, c := FirstSpawn(prefab);
    var d := registry.Detach(Some(c));
    report := registry.Despawn(Some(c));
    stillActive := c in pool.spawned;
  }

  /** DespawnAll after one spawn: the one clone moves to the free list, quietly, and no link is left. */
  method DespawnAllOfOne(registry: Registry, pool: GameObjectPool, c: Clone) returns (reports: seq<Report>)
    requires registry.Valid() && registry.LinksActive() && pool in registry.pools
    requires registry.links == map[c := pool] && pool.State() == Lists([c], [])
    modifies registry`links, registry.pools`spawned, registry.pools`despawned
    ensures reports == [Quiet]
    ensures registry.Valid() && registry.links == map[] && pool.State() == Lists([], [c])
  {
    assert LinkedTo(registry.links, pool) == {c};
    reports := registry.DespawnAll();
    assert pool.Swept({c});
    OneSwept(c, pool.spawned, pool.despawned, reports);
  }

  /** What DespawnAll's contract leaves of a pool holding one active clone, linked, and of its one report. */
  lemma OneSwept(c: Clone, spawned: seq<Clone>, despawned: seq<Clone>, reports: seq<Report>)
    requires spawned == Without([c], {c}) && Elems(despawned) == Elems<Clone>([]) + ({c} * Elems([c]))
    requires |spawned| + |despawned| == 1
    requires |reports| == 1 && multiset(reports)[Warn(MismatchedDespawn)] == 0
    requires multiset(reports)[Quiet] + multiset(reports)[Warn(MismatchedDespawn)] == 1
    ensures spawned == [] && despawned == [c] && reports == [Quiet]
  {
    assert Elems([c]) == {c};
    assert despawned[0] in Elems(despawned);
    assert multiset(reports) == multiset{reports[0]} by {
      assert reports == [reports[0]];
    }
  }

  /**
   * After DespawnAll the one linked clone is free in its pool, its despawn was
   * quiet, and a further despawn of it is reported.
   */
  method DespawnAllThenDespawn(prefab: Prefab) returns (reports: seq<Report>, freed: bool, report: Report)
    ensures reports == [Quiet]
    ensures freed
    ensures report == Warn(MismatchedDespawn)
  {
    var registry, pool, c := FirstSpawn(prefab);
    reports := DespawnAllOfOne(registry, pool, c);
    freed := c in pool.despawned && c !in pool.spawned;
    report := registry.Despawn(Some(c));
  }

  /**
   * A pool that lost the registration for a prefab unmaps the winner when it
   * is destroyed: afterwards no pool is found for the prefab, although the
   * first pool is still alive and still manages it.
   */
  method DuplicateOnDestroyUnmapsFirst(prefab: Prefab) returns (found: bool, firstManages: bool)
    ensures !found
    ensures firstManages
  {
    var registry, first, c := FirstSpawn(prefab);
    var second := new GameObjectPool(registry);
    var report := second.SetPrefab(Some(prefab));
    second.OnDestroy();
    found := registry.TryFindPoolByPrefab(prefab).Some?;
    firstManages := first.prefab == Some(prefab);
  }

  /** With the owner-checked teardown the first pool keeps its mapping. */
  method DuplicateTeardownKeepsFirst(prefab: Prefab) returns (keptFirst: bool)
    ensures keptFirst
  {
    var registry, first, c := FirstSpawn(prefab);
    var second := new GameObjectPool(registry);
    var report := second.SetPrefab(Some(prefab));
    second.Teardown();
    keptFirst := registry.TryFindPoolByPrefab(prefab) == Some(first);
  }
}
