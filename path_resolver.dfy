/** `entity_from_path`: find the entity an `EntityPath` names below an
    animation root, trusting a per-depth cache of previously found children
    and refreshing it on a scan. */
module PathResolver {
  import opened Common
  import opened Scene
  import Clip

  /** `Vec::resize(n, None)`: truncate, or pad with empty slots. */
  function Resized(cache: seq<Option<Entity>>, n: nat): (r: seq<Option<Entity>>)
    ensures |r| == n
    ensures forall i | 0 <= i < n :: r[i] == if i < |cache| then cache[i] else None
  {
    if n <= |cache| then cache[..n] else cache + seq(n - |cache|, _ => None)
  }

  /** The cached slot can be trusted: its entity is still a child of the
      current entity and still carries the expected name. */
  predicate CacheHit(s: Scene, kids: seq<Entity>, slot: Option<Entity>, part: Name)
  {
    slot.Some? && slot.value in kids && Named(s, slot.value, part)
  }

  /** The position of the first child named `part`, if any. */
  function FirstNamed(s: Scene, kids: seq<Entity>, part: Name): (r: Option<nat>)
    ensures r.Some? ==> r.value < |kids| && Named(s, kids[r.value], part)
    ensures r.Some? ==> forall j | 0 <= j < r.value :: !Named(s, kids[j], part)
    ensures r.None? ==> forall j | 0 <= j < |kids| :: !Named(s, kids[j], part)
  {
    if kids == [] then None
    else if Named(s, kids[0], part) then Some(0)
    else match FirstNamed(s, kids[1..], part)
      case None => None
      case Some(j) => Some(j + 1)
  }

  /** The resolution loop from depth `idx` on, at entity `node`, with the
      already resized cache: the result and the cache it leaves, which keeps
      one slot per part and leaves the slots above depth `idx` alone. */
  function Walk(s: Scene, node: Entity, parts: seq<Name>, idx: nat, cache: seq<Option<Entity>>)
    : (r: (Option<Entity>, seq<Option<Entity>>))
    requires |cache| == |parts|
    ensures |r.1| == |parts|
    ensures forall k | 0 <= k < idx && k < |parts| :: r.1[k] == cache[k]
    decreases |parts| - idx
  {
    if idx >= |parts| then (Some(node), cache)
    else if node !in s.children then (None, cache)
    else
      var kids := s.children[node];
      if CacheHit(s, kids, cache[idx], parts[idx]) then
        Walk(s, cache[idx].value, parts, idx + 1, cache)
      else
        match FirstNamed(s, kids, parts[idx])
        case Some(j) => Walk(s, kids[j], parts, idx + 1, cache[idx := Some(kids[j])])
        case None => (None, cache)
  }

  /** Resolution of a whole path from `root`; the first part names the root
      itself and is not looked at. */
  function Resolve(s: Scene, root: Entity, path: Clip.EntityPath, cache: seq<Option<Entity>>)
    : (r: (Option<Entity>, seq<Option<Entity>>))
    ensures |r.1| == |path.parts|
    ensures |path.parts| <= 1 ==> r.0 == Some(root) && r.1 == Resized(cache, |path.parts|)
    ensures |path.parts| > 0 && |cache| > 0 ==> r.1[0] == cache[0]
  {
    Walk(s, root, path.parts, 1, Resized(cache, |path.parts|))
  }

  /** `trail` is a chain from `root` down the hierarchy spelling `parts`:
      one entity per part (just the root for an empty path), each a child
      of the one before with the next name. */
  ghost predicate FollowsPath(s: Scene, root: Entity, parts: seq<Name>, trail: seq<Entity>)
  {
    && |trail| == (if |parts| == 0 then 1 else |parts|)
    && trail[0] == root
    && forall k | 1 <= k < |trail| :: Step(s, trail[k - 1], trail[k], parts[k])
  }

  /** No entity has two children carrying the same name. */
  ghost predicate UniqueSiblingNames(s: Scene)
  {
    forall n, i, j | n in s.children && 0 <= i < |s.children[n]| && 0 <= j < |s.children[n]| &&
      s.children[n][i] in s.names && s.children[n][j] in s.names &&
      s.names[s.children[n][i]] == s.names[s.children[n][j]] :: i == j
  }

  /** `trail` extends `prefix` to a chain of children named by `parts`
      ending at `e`, and `c'` remembers that chain one slot per depth, its
      first slot being `c0`. */
  ghost predicate ExtendsTo(s: Scene, parts: seq<Name>, prefix: seq<Entity>, e: Entity,
                            c0: Option<Entity>, c': seq<Option<Entity>>, trail: seq<Entity>)
  {
    && |trail| == |parts| && |prefix| <= |parts| && trail[..|prefix|] == prefix
    && |parts| > 0 && trail[|parts| - 1] == e
    && |c'| == |parts| && c'[0] == c0
    && forall k | 1 <= k < |parts| :: Step(s, trail[k - 1], trail[k], parts[k]) && c'[k] == Some(trail[k])
  }

  /** The walk from the last entity of a valid chain `prefix` extends the
      chain to the entity it finds, and its cache remembers the chain. */
  lemma {:induction false} WalkSound(s: Scene, parts: seq<Name>, idx: nat, cache: seq<Option<Entity>>,
                                     prefix: seq<Entity>, node: Entity)
    requires 1 <= idx <= |parts| && |cache| == |parts| && |prefix| == idx && node == prefix[idx - 1]
    requires forall k | 1 <= k < idx :: Step(s, prefix[k - 1], prefix[k], parts[k]) && cache[k] == Some(prefix[k])
    ensures Walk(s, node, parts, idx, cache).0.Some? ==>
      exists trail: seq<Entity> :: ExtendsTo(s, parts, prefix, Walk(s, node, parts, idx, cache).0.value,
                                             cache[0], Walk(s, node, parts, idx, cache).1, trail)
    decreases |parts| - idx
  {
    if idx == |parts| {
      assert prefix[..idx] == prefix;
      assert ExtendsTo(s, parts, prefix, node, cache[0], cache, prefix);
    } else if node in s.children {
      var kids := s.children[node];
      var r := Walk(s, node, parts, idx, cache);
      if CacheHit(s, kids, cache[idx], parts[idx]) {
        var prefix' := prefix + [cache[idx].value];
        WalkSound(s, parts, idx + 1, cache, prefix', cache[idx].value);
        if r.0.Some? {
          var trail: seq<Entity> :| ExtendsTo(s, parts, prefix', r.0.value, cache[0], r.1, trail);
          assert trail[..idx] == prefix by { assert trail[..idx] == trail[..idx + 1][..idx]; }
          assert ExtendsTo(s, parts, prefix, r.0.value, cache[0], r.1, trail);
        }
      } else if FirstNamed(s, kids, parts[idx]).Some? {
        var j := FirstNamed(s, kids, parts[idx]).value;
        var cache1 := cache[idx := Some(kids[j])];
        var prefix' := prefix + [kids[j]];
        WalkSound(s, parts, idx + 1, cache1, prefix', kids[j]);
        if r.0.Some? {
          var trail: seq<Entity> :| ExtendsTo(s, parts, prefix', r.0.value, cache1[0], r.1, trail);
          assert trail[..idx] == prefix by { assert trail[..idx] == trail[..idx + 1][..idx]; }
          assert ExtendsTo(s, parts, prefix, r.0.value, cache[0], r.1, trail);
        }
      }
    }
  }

  /** A resolved entity is reached from `root` by a chain of children named
      by the path, and the cache then remembers that chain, one slot per
      depth; the cache always ends up with one slot per part. */
  lemma ResolveSound(s: Scene, root: Entity, path: Clip.EntityPath, cache: seq<Option<Entity>>)
    ensures |Resolve(s, root, path, cache).1| == |path.parts|
    ensures Resolve(s, root, path, cache).0.Some? ==>
      exists trail ::
        && FollowsPath(s, root, path.parts, trail)
        && trail[|trail| - 1] == Resolve(s, root, path, cache).0.value
        && forall k | 1 <= k < |path.parts| :: Resolve(s, root, path, cache).1[k] == Some(trail[k])
  {
    var parts := path.parts;
    var c := Resized(cache, |parts|);
    if |parts| == 0 {
      assert FollowsPath(s, root, parts, [root]);
    } else if Resolve(s, root, path, cache).0.Some? {
      WalkSound(s, parts, 1, c, [root], root);
      var r := Resolve(s, root, path, cache);
      var trail: seq<Entity> :| ExtendsTo(s, parts, [root], r.0.value, c[0], r.1, trail);
      assert trail[0] == trail[..1][0];
      assert FollowsPath(s, root, parts, trail);
    }
  }

  lemma {:induction false} WalkComplete(s: Scene, parts: seq<Name>, idx: nat, cache: seq<Option<Entity>>, trail: seq<Entity>)
    requires UniqueSiblingNames(s)
    requires 1 <= idx <= |parts| && |cache| == |parts| && |trail| == |parts|
    requires forall k | 1 <= k < |trail| :: Step(s, trail[k - 1], trail[k], parts[k])
    ensures Walk(s, trail[idx - 1], parts, idx, cache).0 == Some(trail[|parts| - 1])
    decreases |parts| - idx
  {
    if idx < |parts| {
      var node := trail[idx - 1];
      assert Step(s, node, trail[idx], parts[idx]);
      var kids := s.children[node];
      var t :| 0 <= t < |kids| && kids[t] == trail[idx];
      if CacheHit(s, kids, cache[idx], parts[idx]) {
        var i :| 0 <= i < |kids| && kids[i] == cache[idx].value;
        assert i == t;
        WalkComplete(s, parts, idx + 1, cache, trail);
      } else {
        var j := FirstNamed(s, kids, parts[idx]).value;
        assert j == t;
        WalkComplete(s, parts, idx + 1, cache[idx := Some(kids[j])], trail);
      }
    }
  }

  /** When siblings have distinct names, any chain spelling the path is the
      one found, whatever the cache holds. */
  lemma ResolveComplete(s: Scene, root: Entity, path: Clip.EntityPath, cache: seq<Option<Entity>>, trail: seq<Entity>)
    requires UniqueSiblingNames(s)
    requires FollowsPath(s, root, path.parts, trail)
    ensures Resolve(s, root, path, cache).0 == Some(trail[|trail| - 1])
  {
    if |path.parts| > 0 {
      WalkComplete(s, path.parts, 1, Resized(cache, |path.parts|), trail);
    }
  }

  lemma {:induction false} WalkCached(s: Scene, parts: seq<Name>, idx: nat, cache: seq<Option<Entity>>, trail: seq<Entity>)
    requires 1 <= idx <= |parts| && |cache| == |parts| && |trail| == |parts|
    requires forall k | 1 <= k < |parts| :: Step(s, trail[k - 1], trail[k], parts[k]) && cache[k] == Some(trail[k])
    ensures Walk(s, trail[idx - 1], parts, idx, cache) == (Some(trail[|parts| - 1]), cache)
    decreases |parts| - idx
  {
    if idx < |parts| {
      assert Step(s, trail[idx - 1], trail[idx], parts[idx]);
      WalkCached(s, parts, idx + 1, cache, trail);
    }
  }

  /** Resolving again in an unchanged hierarchy, with the cache the first
      resolution left, finds the same entity through cache hits only: the
      cache comes back unchanged. */
  lemma ResolveAgain(s: Scene, root: Entity, path: Clip.EntityPath, cache: seq<Option<Entity>>)
    requires Resolve(s, root, path, cache).0.Some?
    ensures Resolve(s, root, path, Resolve(s, root, path, cache).1) == Resolve(s, root, path, cache)
  {
    var (r, c') := Resolve(s, root, path, cache);
    ResolveSound(s, root, path, cache);
    var trail: seq<Entity> :| && FollowsPath(s, root, path.parts, trail)
      && trail[|trail| - 1] == r.value
      && forall k | 1 <= k < |path.parts| :: c'[k] == Some(trail[k]);
    assert Resized(c', |path.parts|) == c';
    if |path.parts| > 0 {
      WalkCached(s, path.parts, 1, c', trail);
    }
  }

  /** `entity_from_path`. */
  method EntityFromPath(root: Entity, path: Clip.EntityPath, s: Scene, cache: seq<Option<Entity>>)
    returns (r: Option<Entity>, cache': seq<Option<Entity>>)
    ensures (r, cache') == Resolve(s, root, path, cache)
  {
    var parts := path.parts;
    var current := root;
    cache' := Resized(cache, |parts|);
    var idx := 1;
    while idx < |parts|
      invariant 1 <= idx && (idx <= |parts| || |parts| == 0)
      invariant |cache'| == |parts|
      invariant Walk(s, current, parts, idx, cache') == Resolve(s, root, path, cache)
      decreases |parts| - idx
    {
      if current !in s.children {
        return None, cache';
      }
      var kids := s.children[current];
      var found := false;
      var slot := cache'[idx];
      if slot.Some? {
        var cached := slot.value;
        if cached in kids {
          if cached in s.names {
            if s.names[cached] == parts[idx] {
              current := cached;
              found := true;
            }
          }
        }
      }
      if !found {
        var j := 0;
        while j < |kids|
          invariant 0 <= j <= |kids|
          invariant forall i | 0 <= i < j :: !Named(s, kids[i], parts[idx])
        {
          if kids[j] in s.names && s.names[kids[j]] == parts[idx] {
            current := kids[j];
            cache' := cache'[idx := Some(kids[j])];
            found := true;
            break;
          }
          j := j + 1;
        }
      }
      if !found {
        return None, cache';
      }
      idx := idx + 1;
    }
    r := Some(current);
  }
}
