/**
 * The pooling engine: the pool for one prefab (GameObjectPool), and the
 * registry that stands for the engine's process-wide state: the map from a
 * prefab to its pool, the map from a spawned clone to the pool it came from
 * (its link), and the engine's factory of new clones.
 *
 * The two classes refer to each other (a pool registers itself in the
 * registry; the registry holds pools), so they share one module.
 */
module Pooling {
  import opened Handles
  import opened PoolLists
  import opened Registration

  /** The clones a link map ties to `pool`. */
  ghost function LinkedTo(m: map<Clone, GameObjectPool>, pool: GameObjectPool): set<Clone> {
    set c | c in m && m[c] == pool
  }

  /** A pool's clones stay owned while the factory only adds clones at or above the old bound. */
  lemma OwnedGrows(q: GameObjectPool, owner0: map<Clone, GameObjectPool>, bound0: nat,
                   owner1: map<Clone, GameObjectPool>, bound1: nat)
    requires q.Owned(owner0, bound0) && bound0 <= bound1
    requires forall c :: c in owner0 && c < bound0 ==> c in owner1 && owner1[c] == owner0[c]
    ensures q.Owned(owner1, bound1)
  {
  }

  lemma LinkedToShrink(m: map<Clone, GameObjectPool>, keys: set<Clone>, c: Clone, p: GameObjectPool)
    requires c in keys && c in m
    ensures m[c] == p ==> LinkedTo(m, p) - (keys - {c}) == (LinkedTo(m, p) - keys) + {c}
    ensures m[c] != p ==> LinkedTo(m, p) - (keys - {c}) == LinkedTo(m, p) - keys
  {
  }

  lemma FreeAfterDespawns(active0: set<Clone>, free0: set<Clone>, linked: set<Clone>, active: set<Clone>, free: set<Clone>)
    requires active0 !! free0 && active !! free
    requires active == active0 - linked && active + free == free0 + active0
    ensures free == free0 + (linked * active0)
  {
  }

  lemma CardRemove<T>(s: set<T>, x: T)
    requires x in s
    ensures |s - {x}| == |s| - 1
  {
    assert s == (s - {x}) + {x};
  }

  lemma NonEmptyHasMember<T>(s: set<T>)
    requires |s| > 0
    ensures exists x :: x in s
  {
    var x :| x in s;
  }

  /** The pool for one prefab: the clones it has handed out and the clones it keeps for reuse. */
  class GameObjectPool {
    const registry: Registry
    var prefab: Option<Prefab>
    var spawned: seq<Clone>     // the active list, in spawn order
    var despawned: seq<Clone>   // the free list; its end is reused first

    /** The two lists as a value. */
    function State(): Lists
      reads this`spawned, this`despawned
    {
      Lists(spawned, despawned)
    }

    /** No clone twice in a list, none in both. */
    ghost predicate Valid()
      reads this`spawned, this`despawned
    {
      Inv(State())
    }

    /** `Total`: the number of clones the pool holds, active or free. */
    function Total(): (n: nat)
      reads this`spawned, this`despawned
      ensures Valid() ==> n == |Clones()|
    {
      TotalCountsClones(State());
      PoolLists.Total(State())
    }

    /** The clones the pool holds, active or free. */
    ghost function Clones(): set<Clone>
      reads this`spawned, this`despawned
    {
      Elems(spawned) + Elems(despawned)
    }

    /** Every clone of the pool was created by this pool, before the factory reached `bound`. */
    ghost predicate Owned(owner: map<Clone, GameObjectPool>, bound: nat)
      reads this`spawned, this`despawned
    {
      forall c :: c in Clones() ==> c in owner && owner[c] == this && c < bound
    }

    /**
     * Part way through despawning `gone`: the active list is `active0` without
     * the clones despawned so far, in its order; no clone was gained or lost,
     * the total is the same, and the free list only grew from `free0`.
     */
    ghost predicate Progressed(active0: seq<Clone>, free0: seq<Clone>, gone: set<Clone>)
      reads this`spawned, this`despawned
    {
      && spawned == Without(active0, gone)
      && Clones() == Elems(free0) + Elems(active0)
      && free0 <= despawned
      && |spawned| + |despawned| == |active0| + |free0|
    }

    /**
     * After despawning every clone in `gone`: the active list is the old one
     * without them, in its order; those of them that were active joined the
     * free list, which only grew; the total is the same; and with nothing
     * gone, nothing changed.
     */
    twostate predicate Swept(gone: set<Clone>)
      reads this`spawned, this`despawned
    {
      && spawned == Without(old(spawned), gone)
      && Elems(despawned) == old(Elems(despawned)) + (gone * old(Elems(spawned)))
      && old(despawned) <= despawned && Total() == old(Total())
      && (gone == {} ==> spawned == old(spawned) && despawned == old(despawned))
    }

    /** A pool component added to a new game object: no prefab yet, both lists empty. */
    constructor (registry: Registry)
      modifies registry`pools
      ensures this.registry == registry
      ensures prefab == None && spawned == [] && despawned == []
      ensures registry.pools == old(registry.pools) + {this}
    {
      this.registry := registry;
      prefab := None;
      spawned := [];
      despawned := [];
      new;
      registry.pools := registry.pools + {this};
    }

    /**
     * The `Prefab` setter: a new value releases the old prefab's mapping if it
     * belongs to this pool and registers the new one; the current value changes
     * nothing. A registry that was valid stays valid.
     */
    method SetPrefab(value: Option<Prefab>) returns (report: Report)
      modifies this`prefab, registry`prefabMap
      ensures prefab == value
      ensures value == old(prefab) ==> registry.prefabMap == old(registry.prefabMap) && report == Quiet
      ensures value != old(prefab) ==>
        registry.prefabMap == Register(Unregister(old(registry.prefabMap), old(prefab), this), value, this)
      ensures report == Warn(DuplicatePoolRegistration) <==>
        value != old(prefab) && value.Some? && value.value in Unregister(old(registry.prefabMap), old(prefab), this)
      ensures report == Quiet || report == Warn(DuplicatePoolRegistration)
      ensures old(registry.Valid()) && this in registry.pools ==> registry.Valid()
    {
      report := Quiet;
      if value != prefab {
        ghost var poolsValid := registry.PoolsValid();
        UnregisterPrefab();
        prefab := value;
        assert old(registry.MapsValid()) ==> registry.MapsValid();
        report := RegisterPrefab();
        assert poolsValid ==> registry.PoolsValid();
      }
    }

    /** Removes this pool's prefab mapping, and only if it points at this pool. */
    method UnregisterPrefab()
      modifies registry`prefabMap
      ensures registry.prefabMap == Unregister(old(registry.prefabMap), prefab, this)
      ensures old(registry.MapsValid()) ==>
        registry.MapsValid() && forall k :: k in registry.prefabMap ==> registry.prefabMap[k] != this
    {
      if prefab.None? {
        return;
      }
      if prefab.value in registry.prefabMap && registry.prefabMap[prefab.value] == this {
        registry.prefabMap := registry.prefabMap - {prefab.value};
      }
    }

    /** Maps this pool's prefab to this pool unless some pool already has it, which is reported. */
    method RegisterPrefab() returns (report: Report)
      modifies registry`prefabMap
      ensures registry.prefabMap == Register(old(registry.prefabMap), prefab, this)
      ensures old(registry.MapsValid()) && this in registry.pools ==> registry.MapsValid()
      ensures report == Warn(DuplicatePoolRegistration) <==> prefab.Some? && prefab.value in old(registry.prefabMap)
      ensures report == Quiet || report == Warn(DuplicatePoolRegistration)
    {
      report := Quiet;
      if prefab.Some? {
        if prefab.value in registry.prefabMap {
          report := Warn(DuplicatePoolRegistration);
        } else {
          registry.prefabMap := registry.prefabMap[prefab.value := this];
        }
      }
    }

    /**
     * The first half of teardown: every active clone's link is removed. When
     * every link was for an active clone of its pool, no link points at this
     * pool afterwards.
     */
    method DetachActive()
      modifies registry`links
      ensures registry.links == old(registry.links) - Elems(spawned)
      ensures old(registry.Valid()) ==> registry.Valid()
      ensures old(registry.LinksActive()) ==> registry.LinksActive()
      ensures old(registry.LinksActive()) ==> forall c :: c in registry.links ==> registry.links[c] != this
    {
      for i := 0 to |spawned|
        invariant registry.links == old(registry.links) - Elems(spawned[..i])
        invariant old(registry.Valid()) ==> registry.Valid()
        invariant old(registry.LinksActive()) ==> registry.LinksActive()
      {
        var report := registry.Detach(Some(spawned[i]));
        assert Elems(spawned[..i + 1]) == Elems(spawned[..i]) + {spawned[i]} by {
          assert spawned[..i + 1] == spawned[..i] + [spawned[i]];
        }
      }
      assert spawned[..|spawned|] == spawned;
    }

    /**
     * `OnDestroy`, as written: detaches every active clone, then removes the
     * prefab's mapping whichever pool it points at.
     */
    method OnDestroy()
      modifies registry`links, registry`prefabMap
      ensures registry.links == old(registry.links) - Elems(spawned)
      ensures registry.prefabMap ==
        if prefab.Some? then old(registry.prefabMap) - {prefab.value} else old(registry.prefabMap)
      ensures old(registry.Valid()) ==> registry.Valid()
      ensures old(registry.LinksActive()) ==> registry.LinksActive()
      ensures old(registry.LinksActive()) ==> forall c :: c in registry.links ==> registry.links[c] != this
    {
      DetachActive();
      if prefab.Some? {
        registry.prefabMap := registry.prefabMap - {prefab.value};
      }
    }

    /**
     * Teardown as intended: detaches every active clone, then removes the
     * prefab's mapping only when it points at this pool, so a pool that lost
     * the registration leaves the winner's mapping in place.
     */
    method Teardown()
      modifies registry`links, registry`prefabMap
      ensures registry.links == old(registry.links) - Elems(spawned)
      ensures registry.prefabMap == Unregister(old(registry.prefabMap), prefab, this)
      ensures forall k :: k in old(registry.prefabMap) && old(registry.prefabMap[k]) != this ==>
        k in registry.prefabMap && registry.prefabMap[k] == old(registry.prefabMap[k])
      ensures old(registry.Valid()) ==> registry.Valid() && forall k :: k in registry.prefabMap ==> registry.prefabMap[k] != this
      ensures old(registry.LinksActive()) ==> registry.LinksActive()
      ensures old(registry.LinksActive()) ==> forall c :: c in registry.links ==> registry.links[c] != this
    {
      DetachActive();
      UnregisterPrefab();
    }

    /**
     * Hands out a clone: none without a prefab; otherwise the free list is
     * popped from its end, destroyed entries are dropped, and the first live
     * one is reused; when none is live, the factory creates a new clone.
     */
    method TrySpawn(destroyed: set<Clone>) returns (clone: Option<Clone>)
      requires Valid() && Owned(registry.owner, registry.nextClone)
      modifies this`spawned, this`despawned, registry`nextClone, registry`owner
      ensures Valid() && Owned(registry.owner, registry.nextClone)
      ensures prefab.None? ==>
        && clone == None
        && State() == old(State())
        && registry.nextClone == old(registry.nextClone)
        && registry.owner == old(registry.owner)
      ensures prefab.Some? ==>
        var r := SpawnStep(old(State()), destroyed, old(registry.nextClone));
        && clone == Some(r.clone)
        && State() == r.lists
        && registry.nextClone == (if r.created then old(registry.nextClone) + 1 else old(registry.nextClone))
        && registry.owner == (if r.created then old(registry.owner)[r.clone := this] else old(registry.owner))
      ensures prefab.Some? ==>
        && spawned == old(spawned) + [clone.value]
        && Clones() <= old(Clones()) + {clone.value}
        && clone.value in old(despawned) + [old(registry.nextClone)]
    {
      if prefab.None? {
        return None;
      }
      ghost var before := State();
      ghost var r := SpawnStep(before, destroyed, registry.nextClone);
      forall c | c in spawned || c in despawned ensures c < registry.nextClone {
        assert c in Clones();
      }
      SpawnKeepsInv(before, destroyed, registry.nextClone);
      SpawnClonesWithin(before, destroyed, registry.nextClone);
      var i: int := |despawned| - 1;
      while i >= 0
        invariant i == |despawned| - 1
        invariant spawned == before.active
        invariant ScanFree(despawned, destroyed) == ScanFree(before.free, destroyed)
        invariant registry.nextClone == old(registry.nextClone) && registry.owner == old(registry.owner)
        decreases i
      {
        var candidate := despawned[i];
        ghost var popped := despawned;
        despawned := despawned[..i] + despawned[i + 1..];
        assert despawned == popped[..|popped| - 1];
        if candidate !in destroyed {
          SpawnClone(candidate);
          assert State() == r.lists;
          return Some(candidate);
        }
        i := i - 1;
      }
      var created := CreateClone();
      spawned := spawned + [created];
      clone := Some(created);
      assert State() == r.lists;
    }

    /** Puts a reused clone on the active list. */
    method SpawnClone(clone: Clone)
      modifies this`spawned
      ensures spawned == old(spawned) + [clone]
    {
      spawned := spawned + [clone];
    }

    /** Asks the factory for a new clone of this pool's prefab. */
    method CreateClone() returns (clone: Clone)
      modifies registry`nextClone, registry`owner
      ensures clone == old(registry.nextClone) && registry.nextClone == clone + 1
      ensures registry.owner == old(registry.owner)[clone := this]
    {
      clone := registry.Instantiate(this);
    }

    /**
     * Takes a clone back: a null clone is reported and changes nothing;
     * otherwise as TryDespawn.
     */
    method Despawn(clone: Option<Clone>) returns (report: Report)
      requires Valid()
      modifies this`spawned, this`despawned
      ensures Valid()
      ensures clone.None? ==> report == Warn(NullArgument) && State() == old(State())
      ensures clone.Some? ==> State() == DespawnStep(old(State()), clone.value)
      ensures Clones() == old(Clones()) && old(despawned) <= despawned
      ensures clone.Some? ==> Elems(spawned) == old(Elems(spawned)) - {clone.value}
      ensures clone.Some? ==>
        report == (if clone.value in old(spawned) then Quiet else Warn(MismatchedDespawn))
    {
      if clone.None? {
        return Warn(NullArgument);
      }
      report := TryDespawn(clone.value);
    }

    /**
     * A clone that is active here moves to the end of the free list, so it is
     * the next one reused; any other clone is reported and changes nothing.
     */
    method TryDespawn(clone: Clone) returns (report: Report)
      requires Valid()
      modifies this`spawned, this`despawned
      ensures Valid()
      ensures State() == DespawnStep(old(State()), clone)
      ensures Total() == old(Total()) && Clones() == old(Clones())
      ensures Elems(spawned) == old(Elems(spawned)) - {clone} && old(despawned) <= despawned
      ensures report == (if clone in old(spawned) then Quiet else Warn(MismatchedDespawn))
    {
      DespawnKeepsInv(State(), clone);
      if clone !in spawned {
        return Warn(MismatchedDespawn);
      }
      spawned := RemoveFirst(spawned, clone);
      despawned := despawned + [clone];
      report := Quiet;
    }
  }

  /**
   * The process-wide state the pools share: which pool manages each prefab,
   * which pool each spawned clone came from, and the engine's factory of new
   * clones (a counter: every clone it creates is new). `pools` holds every pool
   * built on this registry and `owner` the pool each clone was created by;
   * both exist for the proofs only.
   */
  class Registry {
    var prefabMap: map<Prefab, GameObjectPool>
    var links: map<Clone, GameObjectPool>
    var nextClone: Clone
    ghost var owner: map<Clone, GameObjectPool>
    ghost var pools: set<GameObjectPool>

    /**
     * Every pool is valid and belongs here, and every clone in a pool was
     * created by that pool, before `nextClone`.
     */
    ghost predicate PoolsValid()
      reads this`pools, this`owner, this`nextClone, pools`spawned, pools`despawned
    {
      forall p :: p in pools ==> p.registry == this && p.Valid() && p.Owned(owner, nextClone)
    }

    /** Every mapped pool manages the prefab it is mapped from; every link points at a known pool. */
    ghost predicate MapsValid()
      reads this`prefabMap, this`links, this`pools, pools`prefab
    {
      && (forall k :: k in prefabMap ==> prefabMap[k] in pools && prefabMap[k].prefab == Some(k))
      && (forall c :: c in links ==> links[c] in pools)
    }

    /** The registry invariant. */
    ghost predicate Valid()
      reads this`prefabMap, this`links, this`pools, this`owner, this`nextClone
      reads pools`spawned, pools`despawned, pools`prefab
    {
      PoolsValid() && MapsValid()
    }

    /**
     * A link exists only for a clone that is active in its pool. The client
     * operations keep this; despawning through a pool directly can break it.
     */
    ghost predicate LinksActive()
      reads this`links, this`pools, pools`spawned
    {
      forall c :: c in links ==> links[c] in pools && c in links[c].spawned
    }

    constructor ()
      ensures Valid() && LinksActive()
      ensures prefabMap == map[] && links == map[] && nextClone == 0
      ensures owner == map[] && pools == {}
    {
      prefabMap := map[];
      links := map[];
      nextClone := 0;
      owner := map[];
      pools := {};
    }

    /** The engine's factory: a clone no pool has seen, created by `pool`. */
    method Instantiate(pool: GameObjectPool) returns (clone: Clone)
      modifies this`nextClone, this`owner
      ensures clone == old(nextClone) && nextClone == clone + 1
      ensures owner == old(owner)[clone := pool]
    {
      clone := nextClone;
      nextClone := nextClone + 1;
      owner := owner[clone := pool];
    }

    /** `TryFindPoolByPrefab`: the pool mapped from `prefab`, which manages that prefab. */
    function TryFindPoolByPrefab(prefab: Prefab): (found: Option<GameObjectPool>)
      reads this, pools
      ensures found.Some? <==> prefab in prefabMap
      ensures found.Some? ==> found.value == prefabMap[prefab]
      ensures Valid() && found.Some? ==> found.value in pools && found.value.prefab == Some(prefab)
    {
      if prefab in prefabMap then Some(prefabMap[prefab]) else None
    }

    /** The pool a spawn of `prefab` may change: the one already mapped, if any. */
    function SpawnFrame(prefab: Option<Prefab>): set<object>
      reads this
    {
      if prefab.Some? && prefab.value in prefabMap then {prefabMap[prefab.value]} else {}
    }

    /** The pool a despawn of `clone` may change: the one it is linked to, if any. */
    function LinkFrame(clone: Option<Clone>): set<GameObjectPool>
      reads this
    {
      if clone.Some? && clone.value in links then {links[clone.value]} else {}
    }

    /**
     * `Spawn`: a null prefab is reported and changes nothing. Otherwise the
     * prefab's pool is found, or created and registered when there is none; it
     * hands out a clone, and the clone is linked to it, replacing (and
     * reporting) a link the clone still had. Through the client operations
     * alone that replacement never happens.
     */
    method Spawn(prefab: Option<Prefab>, destroyed: set<Clone>) returns (clone: Option<Clone>, report: Report)
      requires Valid()
      modifies this, SpawnFrame(prefab)
      ensures Valid()
      ensures prefab.None? ==>
        && clone == None && report == Warn(NoPrototype)
        && links == old(links) && prefabMap == old(prefabMap) && pools == old(pools) && nextClone == old(nextClone)
      ensures prefab.Some? ==>
        && clone.Some? && clone.value in links
        && links == old(links)[clone.value := links[clone.value]]
        && prefab.value in prefabMap && prefabMap[prefab.value] == links[clone.value]
        && report == (if clone.value in old(links) then Warn(DoubleSpawnWithoutDespawn) else Quiet)
      ensures prefab.Some? && prefab.value in old(prefabMap) ==>
        var p := old(prefabMap[prefab.value]);
        var r := SpawnStep(old(p.State()), destroyed, old(nextClone));
        && links[clone.value] == p && clone.value == r.clone && p.State() == r.lists
        && nextClone == (if r.created then old(nextClone) + 1 else old(nextClone))
        && prefabMap == old(prefabMap) && pools == old(pools)
      ensures prefab.Some? && prefab.value !in old(prefabMap) ==>
        var p := links[clone.value];
        && fresh(p) && p.prefab == prefab && pools == old(pools) + {p}
        && prefabMap == old(prefabMap)[prefab.value := p]
        && clone.value == old(nextClone) && nextClone == old(nextClone) + 1
        && p.State() == Lists([clone.value], [])
      ensures old(LinksActive()) ==> LinksActive()
      ensures old(LinksActive()) && prefab.Some? ==> report == Quiet
    {
      if prefab.None? {
        return None, Warn(NoPrototype);
      }
      ghost var mapped := prefab.value in prefabMap;
      var pool := PoolFor(prefab.value);
      if !mapped {
        SpawnFromEmpty(destroyed, nextClone);
      }
      var c;
      c, report := SpawnFrom(pool, destroyed);
      clone := Some(c);
    }

    /**
     * The spawn proper, once the pool is known: the pool hands out a clone and
     * the clone is linked to it, replacing (and reporting) a stale link.
     */
    method SpawnFrom(pool: GameObjectPool, destroyed: set<Clone>) returns (clone: Clone, report: Report)
      requires Valid() && pool in pools && pool.prefab.Some?
      modifies this`links, this`nextClone, this`owner, pool`spawned, pool`despawned
      ensures Valid()
      ensures
        var r := SpawnStep(old(pool.State()), destroyed, old(nextClone));
        && clone == r.clone
        && pool.State() == r.lists
        && nextClone == (if r.created then old(nextClone) + 1 else old(nextClone))
      ensures links == old(links)[clone := pool]
      ensures report == (if clone in old(links) then Warn(DoubleSpawnWithoutDespawn) else Quiet)
      ensures old(LinksActive()) ==> LinksActive() && report == Quiet
    {
      clone := TakeFrom(pool, destroyed);
      report := Link(clone, pool);
    }

    /**
     * The pool's part of a spawn, seen from the registry: the registry stays
     * valid, and while every link is for an active clone, the clone handed out
     * has no link.
     */
    method TakeFrom(pool: GameObjectPool, destroyed: set<Clone>) returns (clone: Clone)
      requires Valid() && pool in pools && pool.prefab.Some?
      modifies this`nextClone, this`owner, pool`spawned, pool`despawned
      ensures Valid()
      ensures
        var r := SpawnStep(old(pool.State()), destroyed, old(nextClone));
        && clone == r.clone
        && pool.State() == r.lists
        && nextClone == (if r.created then old(nextClone) + 1 else old(nextClone))
      ensures clone in pool.spawned
      ensures old(LinksActive()) ==> LinksActive() && clone !in links
    {
      ghost var owner0, next0 := owner, nextClone;
      ghost var active := LinksActive();
      if active {
        NoLinkForSpawnable(pool, destroyed);
      }
      assert pool.Valid() && pool.Owned(owner, nextClone);
      var spawned := pool.TrySpawn(destroyed);
      forall q | q in pools && q != pool ensures q.Owned(owner, nextClone) {
        OwnedGrows(q, owner0, next0, owner, nextClone);
      }
      assert PoolsValid();
      clone := spawned.value;
      if active {
        forall c | c in links ensures links[c] in pools && c in links[c].spawned {
          assert c in old(links[c].spawned);
        }
      }
    }

    /** Links a clone to the pool it came from, replacing (and reporting) a link it still had. */
    method Link(clone: Clone, pool: GameObjectPool) returns (report: Report)
      modifies this`links
      ensures links == old(links)[clone := pool]
      ensures report == (if clone in old(links) then Warn(DoubleSpawnWithoutDespawn) else Quiet)
      ensures old(Valid()) && pool in pools ==> Valid()
      ensures old(LinksActive()) && pool in pools && clone in pool.spawned ==> LinksActive()
    {
      report := Quiet;
      if clone in links {
        links := links - {clone};
        report := Warn(DoubleSpawnWithoutDespawn);
      }
      links := links[clone := pool];
    }

    /**
     * The pool a spawn uses: the one mapped from `prefab`, or a new pool
     * created for it and registered, with both lists empty.
     */
    method PoolFor(prefab: Prefab) returns (pool: GameObjectPool)
      requires Valid()
      modifies this`prefabMap, this`pools
      ensures Valid() && pool in pools && pool.prefab == Some(prefab)
      ensures prefab in prefabMap && prefabMap[prefab] == pool
      ensures prefab in old(prefabMap) ==>
        pool == old(prefabMap[prefab]) && prefabMap == old(prefabMap) && pools == old(pools)
      ensures prefab !in old(prefabMap) ==>
        && fresh(pool) && pools == old(pools) + {pool}
        && prefabMap == old(prefabMap)[prefab := pool]
        && pool.State() == Lists([], [])
      ensures old(LinksActive()) ==> LinksActive()
    {
      var found := TryFindPoolByPrefab(prefab);
      if found.Some? {
        return found.value;
      }
      pool := new GameObjectPool(this);
      assert Valid();
      var registered := pool.SetPrefab(Some(prefab));
    }

    /**
     * While every link is for an active clone, the clone a pool hands out next
     * has no link: a reused clone is free in its pool, and a created one is new.
     */
    lemma NoLinkForSpawnable(p: GameObjectPool, destroyed: set<Clone>)
      requires Valid() && LinksActive() && p in pools
      ensures SpawnStep(p.State(), destroyed, nextClone).clone !in links
    {
      var r := SpawnStep(p.State(), destroyed, nextClone);
      SpawnClonesWithin(p.State(), destroyed, nextClone);
      forall c | c in links ensures c != r.clone {
        var q := links[c];
        assert c in q.spawned && c in q.Clones();
        if !r.created {
          assert r.clone in p.despawned && r.clone in p.Clones();
          if q == p {
            assert c != r.clone;
          } else {
            assert owner[c] == q && owner[r.clone] == p;
          }
        }
      }
    }

    /**
     * `Despawn`: a null clone, or one without a link (never spawned, or
     * detached), is reported and changes nothing. Otherwise the link is removed
     * and the clone's pool takes it back.
     */
    method Despawn(clone: Option<Clone>) returns (report: Report)
      requires Valid()
      modifies this`links, LinkFrame(clone)`spawned, LinkFrame(clone)`despawned
      ensures Valid()
      ensures clone.None? ==> report == Warn(NullArgument) && links == old(links)
      ensures clone.Some? && clone.value !in old(links) ==>
        report == Warn(MismatchedDespawn) && links == old(links)
      ensures clone.Some? && clone.value in old(links) ==>
        var c := clone.value;
        var p := old(links[c]);
        && links == old(links) - {c}
        && p.State() == DespawnStep(old(p.State()), c)
        && Elems(p.spawned) == old(Elems(p.spawned)) - {c}
        && p.Clones() == old(p.Clones()) && old(p.despawned) <= p.despawned
        && report == (if c in old(p.spawned) then Quiet else Warn(MismatchedDespawn))
      ensures old(LinksActive()) ==> LinksActive()
      ensures old(LinksActive()) && clone.Some? && clone.value in old(links) ==> report == Quiet
    {
      if clone.None? {
        return Warn(NullArgument);
      }
      var c := clone.value;
      if c in links {
        var pool := links[c];
        report := DespawnLinked(c, pool);
        assert old(LinksActive()) ==> LinksActive() by {
          if old(LinksActive()) {
            forall d | d in links ensures links[d] in pools && d in links[d].spawned {
              if links[d] == pool {
                assert d in old(pool.spawned) && d != c;
                assert d in Elems(pool.spawned);
              }
            }
          }
        }
      } else {
        report := Warn(MismatchedDespawn);
      }
    }

    /**
     * The linked case of `Despawn`: the link is removed and the clone handed
     * back to the pool it came from.
     */
    method DespawnLinked(c: Clone, p: GameObjectPool) returns (report: Report)
      requires Valid() && c in links && links[c] == p
      modifies this`links, p`spawned, p`despawned
      ensures Valid()
      ensures
        && links == old(links) - {c} && links.Keys == old(links.Keys) - {c}
        && p.State() == DespawnStep(old(p.State()), c)
        && Elems(p.spawned) == old(Elems(p.spawned)) - {c}
        && p.Clones() == old(p.Clones()) && old(p.despawned) <= p.despawned
        && report == (if c in old(p.spawned) then Quiet else Warn(MismatchedDespawn))
    {
      links := links - {c};
      report := p.Despawn(Some(c));
      assert p.Owned(owner, nextClone) by {
        assert old(p.Owned(owner, nextClone));
      }
      assert PoolsValid() && MapsValid();
    }

    /** The linked clones that are no longer active in their pool: their despawn will be reported. */
    ghost function StaleLinks(): set<Clone>
      reads this`links, this`pools, pools`spawned
    {
      set c | c in links && links[c] in pools && c !in links[c].spawned
    }

    /**
     * `DespawnAll`: as many rounds as there are links, each removing one link
     * (in any order) and despawning its clone into its pool. Afterwards there
     * are no links. Each pool's active list is the old one without the clones
     * linked to it, in the same order, and those that were active joined its
     * free list; its total is unchanged, and a pool without links is untouched.
     * One report per round: a warning exactly for each stale link.
     */
    method DespawnAll() returns (reports: seq<Report>)
      requires Valid()
      modifies this`links, pools`spawned, pools`despawned
      ensures Valid() && links == map[]
      ensures forall p :: p in pools ==> p.Swept(LinkedTo(old(links), p))
      ensures |reports| == old(|links|)
      ensures multiset(reports)[Quiet] + multiset(reports)[Warn(MismatchedDespawn)] == |reports|
      ensures multiset(reports)[Warn(MismatchedDespawn)] == |old(StaleLinks())|
      ensures old(LinksActive()) ==> multiset(reports)[Warn(MismatchedDespawn)] == 0
    {
      ghost var linked := links;
      ghost var active0 := map p | p in pools :: p.spawned;
      ghost var free0 := map p | p in pools :: p.despawned;
      ghost var stale := set c | c in linked && linked[c] in active0 && c !in active0[linked[c]];
      assert stale == StaleLinks();
      assert Progress(linked, active0, free0) by {
        forall p | p in pools ensures p.Progressed(active0[p], free0[p], LinkedTo(linked, p) - links.Keys) {
          assert LinkedTo(linked, p) - links.Keys == {};
        }
      }
      reports := DespawnRounds(linked, active0, free0, stale);
      assert forall p :: p in pools ==> Elems(active0[p]) !! Elems(free0[p]);
      ProgressComplete(linked, active0, free0);
      forall p | p in pools
        ensures p.Swept(LinkedTo(old(links), p))
      {
        assert active0[p] == old(p.spawned) && free0[p] == old(p.despawned);
      }
    }

    /** The loop of `DespawnAll`, against the snapshots it took. */
    method DespawnRounds(ghost linked: map<Clone, GameObjectPool>, ghost active0: map<GameObjectPool, seq<Clone>>,
                         ghost free0: map<GameObjectPool, seq<Clone>>, ghost stale: set<Clone>)
      returns (reports: seq<Report>)
      requires Valid() && links == linked && Progress(linked, active0, free0)
      requires forall p :: p in active0 ==> NoDup(active0[p])
      requires StaleIn(stale, linked, active0)
      modifies this`links, pools`spawned, pools`despawned
      ensures Valid() && links == map[] && Progress(linked, active0, free0)
      ensures |reports| == |linked|
      ensures multiset(reports)[Quiet] + multiset(reports)[Warn(MismatchedDespawn)] == |reports|
      ensures multiset(reports)[Warn(MismatchedDespawn)] == |stale|
    {
      var count := |links|;
      assert |links.Keys| == count;
      reports := [];
      for i := 0 to count
        invariant Valid() && Progress(linked, active0, free0)
        invariant |links.Keys| == count - i && |reports| == i
        invariant Counted(reports, stale, links.Keys)
      {
        reports := DespawnRound(linked, active0, free0, stale, reports);
      }
      assert links.Keys == {};
    }

    /** `stale` holds the links whose clone was not active in its pool's snapshot. */
    static ghost predicate StaleIn(stale: set<Clone>, linked: map<Clone, GameObjectPool>,
                                   active0: map<GameObjectPool, seq<Clone>>)
    {
      && stale <= linked.Keys
      && forall c :: c in linked && linked[c] in active0 ==> (c in stale <==> c !in active0[linked[c]])
    }

    /** The reports so far: each a warning or quiet, a warning exactly for each stale link no longer in `keys`. */
    static ghost predicate Counted(reports: seq<Report>, stale: set<Clone>, keys: set<Clone>) {
      && multiset(reports)[Quiet] + multiset(reports)[Warn(MismatchedDespawn)] == |reports|
      && multiset(reports)[Warn(MismatchedDespawn)] == |stale - keys|
    }

    /** One round of `DespawnRounds`: some remaining link is despawned and its report appended. */
    method DespawnRound(ghost linked: map<Clone, GameObjectPool>, ghost active0: map<GameObjectPool, seq<Clone>>,
                        ghost free0: map<GameObjectPool, seq<Clone>>, ghost stale: set<Clone>, reports: seq<Report>)
      returns (reports': seq<Report>)
      requires Valid() && Progress(linked, active0, free0) && links != map[]
      requires forall p :: p in active0 ==> NoDup(active0[p])
      requires StaleIn(stale, linked, active0)
      requires Counted(reports, stale, links.Keys)
      modifies this`links, pools`spawned, pools`despawned
      ensures Valid() && Progress(linked, active0, free0)
      ensures |links.Keys| == old(|links.Keys|) - 1 && |reports'| == |reports| + 1
      ensures Counted(reports', stale, links.Keys)
    {
      NonEmptyHasMember(links.Keys);
      var c :| c in links;
      ghost var keys := links.Keys;
      assert links[c] in pools && links[c] in active0 && linked[c] == links[c];
      var report := DespawnOne(c, links[c], linked, active0, free0);
      CardRemove(keys, c);
      CountRound(reports, report, stale, keys, c);
      reports' := reports + [report];
    }

    /** One more report keeps the counts of `DespawnRounds`: a warning exactly for a stale link. */
    static lemma CountRound(reports: seq<Report>, report: Report, stale: set<Clone>, keys: set<Clone>, c: Clone)
      requires c in keys && report == (if c in stale then Warn(MismatchedDespawn) else Quiet)
      requires Counted(reports, stale, keys)
      ensures Counted(reports + [report], stale, keys - {c})
    {
      assert multiset(reports + [report]) == multiset(reports) + multiset{report};
      StaleShrink(stale, keys, c);
    }

    /** Despawning `c` out of `keys` adds one to the count of stale links handled exactly when `c` is stale. */
    static lemma StaleShrink(stale: set<Clone>, keys: set<Clone>, c: Clone)
      requires c in keys
      ensures |stale - (keys - {c})| == |stale - keys| + (if c in stale then 1 else 0)
    {
      if c in stale {
        assert stale - (keys - {c}) == (stale - keys) + {c};
      } else {
        assert stale - (keys - {c}) == stale - keys;
      }
    }

    /**
     * How far `DespawnAll` has got: every remaining link is one of the links
     * it started from, and each pool has despawned exactly its links that are gone.
     */
    ghost predicate Progress(linked: map<Clone, GameObjectPool>, active0: map<GameObjectPool, seq<Clone>>,
                             free0: map<GameObjectPool, seq<Clone>>)
      reads this`links, this`pools, pools`spawned, pools`despawned
    {
      && (forall c :: c in links ==> c in linked && links[c] == linked[c])
      && pools <= active0.Keys && pools <= free0.Keys
      && (forall p :: p in pools ==> p.Progressed(active0[p], free0[p], LinkedTo(linked, p) - links.Keys))
    }

    /** Once no link is left, the progress relation gives each pool's final lists. */
    lemma ProgressComplete(linked: map<Clone, GameObjectPool>, active0: map<GameObjectPool, seq<Clone>>,
                           free0: map<GameObjectPool, seq<Clone>>)
      requires Valid() && links == map[] && Progress(linked, active0, free0)
      requires forall p :: p in pools ==> p in active0 && p in free0 && Elems(active0[p]) !! Elems(free0[p])
      ensures forall p :: p in pools ==>
        && p.spawned == Without(active0[p], LinkedTo(linked, p))
        && Elems(p.despawned) == Elems(free0[p]) + (LinkedTo(linked, p) * Elems(active0[p]))
        && free0[p] <= p.despawned
        && |p.spawned| + |p.despawned| == |active0[p]| + |free0[p]|
      ensures forall p :: p in pools && LinkedTo(linked, p) == {} ==> p.spawned == active0[p] && p.despawned == free0[p]
    {
      forall p | p in pools
        ensures p.spawned == Without(active0[p], LinkedTo(linked, p))
        ensures free0[p] <= p.despawned && |p.spawned| + |p.despawned| == |active0[p]| + |free0[p]|
        ensures Elems(p.despawned) == Elems(free0[p]) + (LinkedTo(linked, p) * Elems(active0[p]))
        ensures LinkedTo(linked, p) == {} ==> p.spawned == active0[p] && p.despawned == free0[p]
      {
        var gone := LinkedTo(linked, p);
        assert LinkedTo(linked, p) - links.Keys == gone;
        assert p.Progressed(active0[p], free0[p], gone);
        ElemsWithout(active0[p], gone);
        assert Elems(p.spawned) !! Elems(p.despawned);
        FreeAfterDespawns(Elems(active0[p]), Elems(free0[p]), gone, Elems(p.spawned), Elems(p.despawned));
        if gone == {} {
          assert p.spawned == active0[p];
          assert |p.despawned| == |free0[p]|;
        }
      }
    }

    /**
     * One round of `DespawnAll`: removes the link of `c` and despawns it into
     * `pool`, reporting it exactly when it was not active when the loop began.
     */
    method DespawnOne(c: Clone, pool: GameObjectPool, ghost linked: map<Clone, GameObjectPool>,
                      ghost active0: map<GameObjectPool, seq<Clone>>, ghost free0: map<GameObjectPool, seq<Clone>>)
      returns (report: Report)
      requires Valid() && c in links && links[c] == pool && Progress(linked, active0, free0)
      requires forall p :: p in active0 ==> NoDup(active0[p])
      modifies this`links, pool`spawned, pool`despawned
      ensures Valid() && links == old(links) - {c} && links.Keys == old(links.Keys) - {c}
      ensures Progress(linked, active0, free0)
      ensures report == (if c in active0[pool] then Quiet else Warn(MismatchedDespawn))
    {
      assert c in pool.spawned <==> c in active0[pool] by {
        assert pool.Progressed(active0[pool], free0[pool], LinkedTo(linked, pool) - links.Keys);
      }
      report := DespawnLinked(c, pool);
      ProgressKept(c, pool, linked, active0, free0);
    }

    /** One despawn through its link keeps `Progress` (the snapshots were allocated before it). */
    twostate lemma ProgressKept(c: Clone, new pool: GameObjectPool, new linked: map<Clone, GameObjectPool>,
                                new active0: map<GameObjectPool, seq<Clone>>, new free0: map<GameObjectPool, seq<Clone>>)
      requires old(allocated(linked)) && old(allocated(active0)) && old(allocated(free0))
      requires old(Progress(linked, active0, free0)) && c in old(links) && old(links[c]) == pool
      requires links == old(links) - {c} && pools == old(pools) && pool in pools && NoDup(active0[pool])
      requires pool.spawned == RemoveFirst(old(pool.spawned), c)
      requires pool.Clones() == old(pool.Clones()) && old(pool.despawned) <= pool.despawned
      requires |pool.spawned| + |pool.despawned| == old(|pool.spawned| + |pool.despawned|)
      requires forall p :: p in pools && p != pool ==> p.spawned == old(p.spawned) && p.despawned == old(p.despawned)
      ensures Progress(linked, active0, free0)
    {
      ghost var keys := old(links.Keys);
      assert links.Keys == keys - {c};
      assert linked[c] == pool;
      LinkedToShrink(linked, keys, c, pool);
      WithoutOneMore(active0[pool], LinkedTo(linked, pool) - keys, c);
      assert pool.Progressed(active0[pool], free0[pool], LinkedTo(linked, pool) - links.Keys);
      forall p | p in pools && p != pool
        ensures p.Progressed(active0[p], free0[p], LinkedTo(linked, p) - links.Keys)
      {
        LinkedToShrink(linked, keys, c, p);
      }
    }

    /** `Detach`: forgets the clone's link without touching any pool; a null clone is reported. */
    method Detach(clone: Option<Clone>) returns (report: Report)
      modifies this`links
      ensures clone.None? ==> report == Warn(NullArgument) && links == old(links)
      ensures clone.Some? ==> report == Quiet && links == old(links) - {clone.value}
      ensures old(Valid()) ==> Valid()
      ensures old(LinksActive()) ==> LinksActive()
    {
      if clone.Some? {
        links := links - {clone.value};
        report := Quiet;
      } else {
        report := Warn(NullArgument);
      }
    }
  }
}
