/**
 * Identities and diagnostics shared by the pool and the registries.
 *
 * Game objects are opaque identities here: a clone is the id the engine gave it
 * when it was instantiated, a prefab an opaque comparable key. A null reference
 * is `None`.
 */
module Handles {

  /** A pooled game object, by the id it received when it was instantiated. */
  type Clone = nat

  /** The prototype clones are instantiated from. */
  type Prefab = nat

  /** An optional value; `None` stands for a null reference. */
  datatype Option<+T> = None | Some(value: T)

  /** The non-fatal conditions the pool code reports through the engine's log. */
  datatype Condition =
    | NoPrototype                 // spawn with a null prefab
    | DuplicatePoolRegistration   // a second pool registers a prefab that is already mapped
    | MismatchedDespawn           // despawn of a clone that is not active in its pool, or has no link
    | DoubleSpawnWithoutDespawn   // spawn hands out a clone that still has a link
    | NullArgument                // despawn or detach of a null clone

  /** What one call wrote to the log: nothing, or one condition. */
  datatype Report = Quiet | Warn(condition: Condition)
}
