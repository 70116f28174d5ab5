/** What the animation system reads of the scene hierarchy: the `Children`
    list and the `Name` of each entity, and for each entity whether it hosts
    an `AnimationPlayer` and who its `Parent` is. */
module Scene {
  import opened Common

  /** One row of the `(Option<With<AnimationPlayer>>, Option<&Parent>)` query. */
  datatype Link = Link(hasPlayer: bool, parent: Option<Entity>)

  /** A missing key is an entity the corresponding query does not return. */
  datatype Scene = Scene(
    children: map<Entity, seq<Entity>>,
    names: map<Entity, Name>,
    links: map<Entity, Link>)

  /** `e` has a `Name` equal to `part`. */
  predicate Named(s: Scene, e: Entity, part: Name)
  {
    e in s.names && s.names[e] == part
  }

  /** `child` is listed among the `Children` of `parent` and is named `part`. */
  predicate Step(s: Scene, parent: Entity, child: Entity, part: Name)
  {
    parent in s.children && child in s.children[parent] && Named(s, child, part)
  }

  /** The `Children` and `Parent` components agree: every listed child has
      the listing entity as its parent. The engine's hierarchy keeps this. */
  ghost predicate ParentsMatchChildren(s: Scene)
  {
    forall n, c | n in s.children && c in s.children[n] :: c in s.links && s.links[c].parent == Some(n)
  }
}
