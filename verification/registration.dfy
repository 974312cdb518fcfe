/**
 * The rules of the prefab registry, as functions on the map from a prefab to
 * the pool that manages it: the first pool to register a prefab keeps it, and
 * a pool only ever removes a mapping that points at itself.
 */
module Registration {
  import opened Handles

  /**
   * `RegisterPrefab`: a non-null key that is not yet mapped is mapped to `pool`;
   * an existing mapping is never replaced.
   */
  function Register<K(==), P>(m: map<K, P>, key: Option<K>, pool: P): (r: map<K, P>)
    ensures r.Keys == if key.Some? then m.Keys + {key.value} else m.Keys
    ensures forall k :: k in m ==> r[k] == m[k]
    ensures key.Some? && key.value !in m ==> r[key.value] == pool
  {
    if key.Some? && key.value !in m then m[key.value := pool] else m
  }

  /**
   * `UnregisterPrefab`: the key is removed only when it maps to `pool`; every
   * other mapping stays as it was.
   */
  function Unregister<K(==), P(==)>(m: map<K, P>, key: Option<K>, pool: P): (r: map<K, P>)
    ensures forall k :: k in r ==> k in m && r[k] == m[k]
    ensures forall k :: k in m && (key != Some(k) || m[k] != pool) ==> k in r
    ensures key.Some? && key.value in m && m[key.value] == pool ==> key.value !in r
  {
    if key.Some? && key.value in m && m[key.value] == pool then m - {key.value} else m
  }

  /** First registrant wins: a later registration of the same prefab changes nothing. */
  lemma FirstRegistrantWins<K, P>(m: map<K, P>, k: K, first: P, second: P)
    ensures Register(Register(m, Some(k), first), Some(k), second) == Register(m, Some(k), first)
    ensures k !in m ==> Register(Register(m, Some(k), first), Some(k), second)[k] == first
  {
  }

  /** A pool that registered a prefab and then unregisters it leaves the map as it found it. */
  lemma UnregisterUndoesRegister<K, P>(m: map<K, P>, k: K, pool: P)
    requires k !in m
    ensures Unregister(Register(m, Some(k), pool), Some(k), pool) == m
  {
    assert Register(m, Some(k), pool) - {k} == m;
  }

  /** A pool cannot remove a mapping that belongs to another pool. */
  lemma UnregisterSparesOthers<K, P>(m: map<K, P>, k: K, pool: P)
    requires k in m && m[k] != pool
    ensures Unregister(m, Some(k), pool) == m
  {
  }
}
