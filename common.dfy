/** Shared vocabulary of the animation model: optional values and the
    opaque identities the engine hands around (scene entities, node names,
    clip handles). */
module Common {

  /** `Option` as the engine's `Option<T>`. */
  datatype Option<+T> = None | Some(value: T)

  /** A scene entity; only its identity matters here. */
  type Entity = int

  /** The `Name` component of an entity. */
  type Name = string

  /** A `Handle<AnimationClip>`: an id into the clip asset store. */
  type ClipId = int
}
