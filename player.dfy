/** `AnimationPlayer`: the component that plays one animation on the
    hierarchy below its entity, fading out the animations it replaced, and
    the per-frame work of the `animation_player` system for one player. */
module Player {
  import opened Common
  import opened Scene
  import opened Clip
  import opened PathResolver
  import opened AncestorGuard
  import opened Playback

  /** What one `apply_animation` call did besides updating the animation:
      nothing (no clip, or the clip asset is not loaded), stopped by the
      ancestor guard, or sampled the clip at `time` on the entities the
      clip's paths resolved to. */
  datatype Pass =
    | Skipped
    | Conflict
    | Sampled(time: Option<real>, targets: map<EntityPath, Entity>)

  /** A pass and the blend weight its writes are made with. */
  datatype WeightedPass = WeightedPass(weight: real, pass: Pass)

  /** The entity each path of a clip resolves to from `root`, each path
      using the cache slot of its bone; unresolved paths are absent. */
  function Targets(s: Scene, root: Entity, paths: map<EntityPath, nat>, cache: seq<seq<Option<Entity>>>): map<EntityPath, Entity>
    requires forall p | p in paths :: paths[p] < |cache|
  {
    map p | p in paths && Resolve(s, root, p, cache[paths[p]]).0.Some? :: Resolve(s, root, p, cache[paths[p]]).0.value
  }

  /** `cache'` is `cache` after every path resolved once through its own
      bone's slot; slots no path owns keep their value. */
  ghost predicate CacheAfter(s: Scene, root: Entity, paths: map<EntityPath, nat>,
                             cache: seq<seq<Option<Entity>>>, cache': seq<seq<Option<Entity>>>)
    requires forall p | p in paths :: paths[p] < |cache|
  {
    && |cache'| == |cache|
    && (forall p | p in paths :: cache'[paths[p]] == Resolve(s, root, p, cache[paths[p]]).1)
    && (forall b | 0 <= b < |cache| && b !in paths.Values :: cache'[b] == cache[b])
  }

  /** Every clip asset is in its valid state. */
  ghost predicate ValidAssets(assets: map<ClipId, AnimationClip>)
    reads set id | id in assets :: assets[id]
  {
    forall id | id in assets :: assets[id].Valid()
  }

  /** The effect of `apply_animation` on `a`: nothing without a loaded
      clip; otherwise the time advance (with the sampling time stored back,
      see `Playback.AdvanceTimeWrapped`), then, if the ancestor guard
      passes, every path resolved through its bone's cache slot. */
  ghost predicate Applied(a: PlayingAnimation, paused: bool, dt: real, assets: map<ClipId, AnimationClip>,
                          s: Scene, root: Entity, playerParent: Option<Entity>, a': PlayingAnimation, pass: Pass)
    requires ValidAssets(assets)
    reads set id | id in assets :: assets[id]
  {
    if a.clip.None? || a.clip.value !in assets then a' == a && pass == Skipped
    else
      var id := a.clip.value;
      var clip := assets[id];
      assert clip.Valid();
      var adv := AdvanceTimeWrapped(a, paused, dt, clip.Duration(), |clip.paths|);
      if !NoPlayerAbove(s.links, playerParent) then a' == adv.animation && pass == Conflict
      else
        && a' == adv.animation.(pathCache := a'.pathCache)
        && CacheAfter(s, root, clip.paths, adv.animation.pathCache, a'.pathCache)
        && pass == Sampled(adv.time, Targets(s, root, clip.paths, adv.animation.pathCache))
  }

  /** Progress of the path loop: the paths outside `todo` are resolved
      (their slots updated, the resolved ones recorded in `targets`), the
      paths in `todo` and the slots no path owns are untouched. */
  ghost predicate PathsResolvedExcept(s: Scene, root: Entity, paths: map<EntityPath, nat>, cache: seq<seq<Option<Entity>>>,
                                      todo: set<EntityPath>, cache': seq<seq<Option<Entity>>>, targets: map<EntityPath, Entity>)
    requires forall p | p in paths :: paths[p] < |cache|
  {
    && todo <= paths.Keys && |cache'| == |cache|
    && (forall p | p in paths && p !in todo :: cache'[paths[p]] == Resolve(s, root, p, cache[paths[p]]).1)
    && (forall p | p in todo :: cache'[paths[p]] == cache[paths[p]])
    && (forall b | 0 <= b < |cache| && b !in paths.Values :: cache'[b] == cache[b])
    && (forall p :: p in targets <==> p in paths && p !in todo && Resolve(s, root, p, cache[paths[p]]).0.Some?)
    && (forall p | p in targets :: targets[p] == Resolve(s, root, p, cache[paths[p]]).0.value)
  }

  /** Resolving one more path `p` through its slot keeps the loop's
      progress, bone ids being distinct. */
  lemma ResolveOneMore(s: Scene, root: Entity, paths: map<EntityPath, nat>, cache: seq<seq<Option<Entity>>>,
                       todo: set<EntityPath>, cache': seq<seq<Option<Entity>>>, targets: map<EntityPath, Entity>, p: EntityPath)
    requires forall p | p in paths :: paths[p] < |cache|
    requires forall p, q | p in paths && q in paths && p != q :: paths[p] != paths[q]
    requires PathsResolvedExcept(s, root, paths, cache, todo, cache', targets) && p in todo
    ensures var r := Resolve(s, root, p, cache'[paths[p]]);
      PathsResolvedExcept(s, root, paths, cache, todo - {p}, cache'[paths[p] := r.1],
                          if r.0.Some? then targets[p := r.0.value] else targets)
  {
  }

  /** With nothing left to do, the loop's progress is the promised result. */
  lemma ResolvedAll(s: Scene, root: Entity, paths: map<EntityPath, nat>, cache: seq<seq<Option<Entity>>>,
                    cache': seq<seq<Option<Entity>>>, targets: map<EntityPath, Entity>)
    requires forall p | p in paths :: paths[p] < |cache|
    requires PathsResolvedExcept(s, root, paths, cache, {}, cache', targets)
    ensures CacheAfter(s, root, paths, cache, cache')
    ensures targets == Targets(s, root, paths, cache)
  {
  }

  /** The path loop of `apply_animation`: every path of the clip resolved
      from `root` through the cache slot of its bone, in whatever order the
      clip's path map yields them. Bone ids being distinct, each slot is
      resolved once, so the order does not matter. */
  method ResolvePaths(s: Scene, root: Entity, paths: map<EntityPath, nat>, cache: seq<seq<Option<Entity>>>)
    returns (cache': seq<seq<Option<Entity>>>, targets: map<EntityPath, Entity>)
    requires forall p | p in paths :: paths[p] < |cache|
    requires forall p, q | p in paths && q in paths && p != q :: paths[p] != paths[q]
    ensures CacheAfter(s, root, paths, cache, cache')
    ensures targets == Targets(s, root, paths, cache)
  {
    cache' := cache;
    targets := map[];
    var todo := paths.Keys;
    while todo != {}
      invariant PathsResolvedExcept(s, root, paths, cache, todo, cache', targets)
      decreases |todo|
    {
      var p :| p in todo;
      ResolveOneMore(s, root, paths, cache, todo, cache', targets, p);
      var bone := paths[p];
      var target, slot := EntityFromPath(root, p, s, cache'[bone]);
      cache' := cache'[bone := slot];
      if target.Some? {
        targets := targets[p := target.value];
      }
      todo := todo - {p};
    }
    ResolvedAll(s, root, paths, cache, cache', targets);
  }

  /** `apply_animation`, minus the writes to `Transform` and `MorphWeights`:
      advances the animation on its clip, checks the ancestor guard and
      resolves every path of the clip. */
  method ApplyAnimation(a: PlayingAnimation, paused: bool, dt: real, assets: map<ClipId, AnimationClip>,
                        s: Scene, root: Entity, playerParent: Option<Entity>)
    returns (a': PlayingAnimation, pass: Pass)
    requires ValidAssets(assets) && Acyclic(s.links)
    ensures Applied(a, paused, dt, assets, s, root, playerParent, a', pass)
  {
    if a.clip.None? || a.clip.value !in assets {
      return a, Skipped;
    }
    var id := a.clip.value;
    var clip := assets[id];
    assert clip.Valid();
    var adv := AdvanceTimeWrapped(a, paused, dt, clip.Duration(), |clip.paths|);
    var safe := VerifyNoAncestorPlayer(playerParent, s.links);
    if !safe {
      return adv.animation, Conflict;
    }
    var cache, targets := ResolvePaths(s, root, clip.paths, adv.animation.pathCache);
    a' := adv.animation.(pathCache := cache);
    pass := Sampled(adv.time, targets);
  }

  /** Following a chain of `Children` steps back up through `Parent`
      links climbs exactly one entity per step. */
  lemma {:induction false} ChainClimbsToRoot(s: Scene, trail: seq<Entity>, names: seq<Name>, m: nat)
    requires ParentsMatchChildren(s)
    requires |trail| == |names| && m < |trail|
    requires forall k | 1 <= k < |trail| :: Step(s, trail[k - 1], trail[k], names[k])
    ensures AncestorAt(s.links, trail[m], m) == Some(trail[0])
  {
    if m > 0 {
      ChainClimbsToRoot(s, trail, names, m - 1);
      assert Step(s, trail[m - 1], trail[m], names[m]);
    }
  }

  /** Two players that both pass the ancestor guard never resolve a path
      to the same entity, unless they are the same player: what makes the
      unchecked `Transform` access of parallel players sound. */
  lemma GuardedPlayersTargetDisjointEntities(
    s: Scene, root1: Entity, root2: Entity, path1: EntityPath, path2: EntityPath,
    cache1: seq<Option<Entity>>, cache2: seq<Option<Entity>>)
    requires ParentsMatchChildren(s)
    requires HostsPlayer(s.links, Some(root1)) && NoPlayerAbove(s.links, s.links[root1].parent)
    requires HostsPlayer(s.links, Some(root2)) && NoPlayerAbove(s.links, s.links[root2].parent)
    requires Resolve(s, root1, path1, cache1).0.Some? && Resolve(s, root2, path2, cache2).0.Some?
    requires Resolve(s, root1, path1, cache1).0 == Resolve(s, root2, path2, cache2).0
    ensures root1 == root2
  {
    var e := Resolve(s, root1, path1, cache1).0.value;
    ResolvedBelowRoot(s, root1, path1, cache1);
    ResolvedBelowRoot(s, root2, path2, cache2);
    var k1: nat :| AncestorAt(s.links, e, k1) == Some(root1);
    var k2: nat :| AncestorAt(s.links, e, k2) == Some(root2);
    GuardedPlayersAreDisjoint(s.links, e, root1, root2, k1, k2);
  }

  /** A resolved entity lies some number of parent links below the root it
      was resolved from. */
  lemma ResolvedBelowRoot(s: Scene, root: Entity, path: EntityPath, cache: seq<Option<Entity>>)
    requires ParentsMatchChildren(s)
    requires Resolve(s, root, path, cache).0.Some?
    ensures exists k: nat :: AncestorAt(s.links, Resolve(s, root, path, cache).0.value, k) == Some(root)
  {
    var e := Resolve(s, root, path, cache).0.value;
    ResolveSound(s, root, path, cache);
    var trail: seq<Entity> :| FollowsPath(s, root, path.parts, trail) && trail[|trail| - 1] == e;
    var names := if |path.parts| == 0 then [""] else path.parts;
    ChainClimbsToRoot(s, trail, names, |trail| - 1);
  }

  /** `AnimationPlayer`. */
  class AnimationPlayer {
    var paused: bool
    var animation: PlayingAnimation
    /** Replaced animations still fading out, oldest first. */
    var transitions: seq<AnimationTransition>

    /** `AnimationPlayer::default()`. */
    constructor ()
      ensures !paused && animation == Starting(None) && transitions == []
    {
      paused := false;
      animation := Starting(None);
      transitions := [];
    }

    /** `start`: play `clip` from the beginning, dropping every fade. */
    method Start(clip: ClipId)
      modifies this
      ensures animation == Starting(Some(clip)) && transitions == []
      ensures paused == old(paused)
    {
      animation := Starting(Some(clip));
      transitions := [];
    }

    /** `start_with_transition`: play `clip` from the beginning and fade the
        animation it replaces out over `duration` seconds, after the fades
        already running. */
    method StartWithTransition(clip: ClipId, duration: real)
      requires duration >= 0.0
      modifies this
      ensures animation == Starting(Some(clip))
      ensures transitions == old(transitions) + [AnimationTransition(1.0, DeclineFor(duration), old(animation))]
      ensures paused == old(paused)
    {
      var previous := animation;
      animation := Starting(Some(clip));
      transitions := transitions + [AnimationTransition(1.0, DeclineFor(duration), previous)];
    }

    /** `animation_clip`: the handle of exactly the clip `is_playing_clip`
        reports. */
    function ClipHandle(): (r: Option<ClipId>)
      reads this
      ensures forall c :: IsPlayingClip(c) <==> r == Some(c)
    {
      animation.clip
    }

    /** `is_playing_clip`: never true for a player without a clip. */
    predicate IsPlayingClip(clip: ClipId): (r: bool)
      reads this
      ensures r ==> animation.clip.Some?
    {
      animation.clip == Some(clip)
    }

    /** `play`: restart only when another clip is playing or the player is
        paused; the clip already playing keeps its progress. */
    method Play(clip: ClipId)
      modifies this
      ensures old(IsPlayingClip(clip)) && !old(paused) ==> animation == old(animation) && transitions == old(transitions)
      ensures !old(IsPlayingClip(clip)) || old(paused) ==> animation == Starting(Some(clip)) && transitions == []
      ensures paused == old(paused)
    {
      if !IsPlayingClip(clip) || paused {
        Start(clip);
      }
    }

    /** `play_with_transition`: as `Play`, fading out what it replaces. */
    method PlayWithTransition(clip: ClipId, duration: real)
      requires duration >= 0.0
      modifies this
      ensures old(IsPlayingClip(clip)) && !old(paused) ==> animation == old(animation) && transitions == old(transitions)
      ensures !old(IsPlayingClip(clip)) || old(paused) ==>
        && animation == Starting(Some(clip))
        && transitions == old(transitions) + [AnimationTransition(1.0, DeclineFor(duration), old(animation))]
      ensures paused == old(paused)
    {
      if !IsPlayingClip(clip) || paused {
        StartWithTransition(clip, duration);
      }
    }

    /** `is_finished`: the active animation's repeat policy is met; an
        animation repeating forever never reports finished. */
    predicate IsFinished(): (r: bool)
      reads this
      ensures r <==> Finished(animation)
      ensures animation.repeat.Forever? ==> !r
    {
      Finished(animation)
    }

    /** `is_playback_reversed`: the speed is negative. */
    predicate IsPlaybackReversed(): (r: bool)
      reads this
      ensures r <==> Speed() < 0.0
    {
      animation.speed < 0.0
    }

    /** `is_paused`. */
    predicate IsPaused(): (r: bool)
      reads this
      ensures r == paused
    {
      paused
    }

    /** `speed`: negative under reverse playback. */
    function Speed(): (r: real)
      reads this
      ensures r == animation.speed
    {
      animation.speed
    }

    /** `elapsed`: the stored time of the active animation. */
    function Elapsed(): (r: real)
      reads this
      ensures r == animation.elapsed
    {
      animation.elapsed
    }

    /** `repeat`. */
    method Repeat()
      modifies this
      ensures animation == old(animation).(repeat := Forever)
      ensures paused == old(paused) && transitions == old(transitions)
    {
      animation := animation.(repeat := Forever);
    }

    /** `stop_repeating`. */
    method StopRepeating()
      modifies this
      ensures animation == old(animation).(repeat := Never)
      ensures paused == old(paused) && transitions == old(transitions)
    {
      animation := animation.(repeat := Never);
    }

    /** `set_repeat`. */
    method SetRepeat(repeat: RepeatAnimation)
      modifies this
      ensures animation == old(animation).(repeat := repeat)
      ensures paused == old(paused) && transitions == old(transitions)
    {
      animation := animation.(repeat := repeat);
    }

    /** `pause`. */
    method Pause()
      modifies this
      ensures paused && animation == old(animation) && transitions == old(transitions)
    {
      paused := true;
    }

    /** `resume`. */
    method Resume()
      modifies this
      ensures !paused && animation == old(animation) && transitions == old(transitions)
    {
      paused := false;
    }

    /** `set_speed`. */
    method SetSpeed(speed: real)
      modifies this
      ensures animation == old(animation).(speed := speed)
      ensures paused == old(paused) && transitions == old(transitions)
    {
      animation := animation.(speed := speed);
    }

    /** `set_elapsed`: seek. */
    method SetElapsed(elapsed: real)
      modifies this
      ensures animation == old(animation).(elapsed := elapsed)
      ensures paused == old(paused) && transitions == old(transitions)
    {
      animation := animation.(elapsed := elapsed);
    }

    /** `update_transitions`: lower every fade's weight by its rate times
        `dt` and drop the fades whose weight is no longer above zero. */
    method UpdateTransitions(dt: real)
      modifies this
      ensures transitions == UpdatedTransitions(old(transitions), dt)
      ensures paused == old(paused) && animation == old(animation)
    {
      var ts := transitions;
      var kept: seq<AnimationTransition> := [];
      var i := 0;
      while i < |ts|
        invariant 0 <= i <= |ts|
        invariant kept == UpdatedTransitions(ts[..i], dt)
        modifies {}
      {
        var t := ts[i];
        ghost var before := kept;
        if t.decline.PerSecond? {
          var w := t.currentWeight - t.decline.rate * dt;
          if w > 0.0 {
            assert Decayed(t, dt).Some?;
            assert Decayed(t, dt).value == t.(currentWeight := w);
            kept := kept + [t.(currentWeight := w)];
          }
        }
        assert kept == before + if Decayed(t, dt).Some? then [Decayed(t, dt).value] else [];
        assert ts[..i + 1] == ts[..i] + [t];
        UpdatedTransitionsAppend(ts[..i], [t], dt);
        SingleUpdate(t, dt);
        i := i + 1;
      }
      assert ts[..i] == ts;
      transitions := kept;
    }

    /** `run_animation_player`: unless paused and unchanged, apply the
        main animation at full weight, then every fading animation at its
        current weight, oldest first. */
    method RunAnimationPlayer(dt: real, changed: bool, assets: map<ClipId, AnimationClip>,
                              s: Scene, root: Entity, playerParent: Option<Entity>)
      returns (passes: seq<WeightedPass>)
      requires ValidAssets(assets) && Acyclic(s.links)
      modifies this
      ensures paused == old(paused)
      ensures old(paused) && !changed ==>
        passes == [] && animation == old(animation) && transitions == old(transitions)
      ensures !(old(paused) && !changed) ==>
        && |passes| == |transitions| + 1 == |old(transitions)| + 1
        && passes[0].weight == 1.0
        && Applied(old(animation), paused, dt, assets, s, root, playerParent, animation, passes[0].pass)
        && AppliedEach(old(transitions), paused, dt, assets, s, root, playerParent, transitions, passes[1..])
    {
      if paused && !changed {
        return [];
      }
      var main, pass := ApplyAnimation(animation, paused, dt, assets, s, root, playerParent);
      var faded, rest := ApplyTransitions(transitions, paused, dt, assets, s, root, playerParent);
      passes := [WeightedPass(1.0, pass)] + rest;
      assert passes[1..] == rest;
      animation := main;
      transitions := faded;
    }
  }

  /** The loop of `run_animation_player` over the fading animations:
      each is applied at its current weight, oldest first, and keeps its
      weight and rate. */
  method ApplyTransitions(ts: seq<AnimationTransition>, paused: bool, dt: real, assets: map<ClipId, AnimationClip>,
                          s: Scene, root: Entity, playerParent: Option<Entity>)
    returns (faded: seq<AnimationTransition>, passes: seq<WeightedPass>)
    requires ValidAssets(assets) && Acyclic(s.links)
    ensures AppliedEach(ts, paused, dt, assets, s, root, playerParent, faded, passes)
  {
    faded := [];
    passes := [];
    var i := 0;
    while i < |ts|
      invariant 0 <= i <= |ts|
      invariant AppliedEach(ts[..i], paused, dt, assets, s, root, playerParent, faded, passes)
    {
      var t := ts[i];
      var next, p := ApplyAnimation(t.animation, paused, dt, assets, s, root, playerParent);
      assert ts[..i + 1] == ts[..i] + [t];
      AppliedEachSnoc(ts[..i], paused, dt, assets, s, root, playerParent, faded, passes, t, next, p);
      faded := faded + [t.(animation := next)];
      passes := passes + [WeightedPass(t.currentWeight, p)];
      i := i + 1;
    }
    assert ts[..i] == ts;
  }

  /** Applying one more fading animation extends `AppliedEach` by one. */
  lemma AppliedEachSnoc(ts: seq<AnimationTransition>, paused: bool, dt: real, assets: map<ClipId, AnimationClip>,
                        s: Scene, root: Entity, playerParent: Option<Entity>,
                        faded: seq<AnimationTransition>, passes: seq<WeightedPass>,
                        t: AnimationTransition, next: PlayingAnimation, p: Pass)
    requires ValidAssets(assets)
    requires AppliedEach(ts, paused, dt, assets, s, root, playerParent, faded, passes)
    requires Applied(t.animation, paused, dt, assets, s, root, playerParent, next, p)
    ensures AppliedEach(ts + [t], paused, dt, assets, s, root, playerParent,
                        faded + [t.(animation := next)], passes + [WeightedPass(t.currentWeight, p)])
  {
  }

  /** Each fading animation of `ts` applied, at its own weight, giving the
      transition at the same place of `faded` and the pass at the same
      place of `passes`; the weights and rates are kept. */
  ghost predicate AppliedEach(ts: seq<AnimationTransition>, paused: bool, dt: real, assets: map<ClipId, AnimationClip>,
                              s: Scene, root: Entity, playerParent: Option<Entity>,
                              faded: seq<AnimationTransition>, passes: seq<WeightedPass>)
    requires ValidAssets(assets)
    reads set id | id in assets :: assets[id]
  {
    && |faded| == |passes| == |ts|
    && forall j | 0 <= j < |ts| ::
         && faded[j] == ts[j].(animation := faded[j].animation)
         && passes[j].weight == ts[j].currentWeight
         && Applied(ts[j].animation, paused, dt, assets, s, root, playerParent, faded[j].animation, passes[j].pass)
  }

  /** The `animation_player` system's work on one player: update its
      fades, then run it. Taking the player mutably for the fade update
      marks it changed, so `run_animation_player` sees it changed and a
      paused player is applied like a running one (with its time held). */
  method AnimatePlayer(player: AnimationPlayer, dt: real, assets: map<ClipId, AnimationClip>,
                       s: Scene, root: Entity, playerParent: Option<Entity>)
    returns (passes: seq<WeightedPass>)
    requires ValidAssets(assets) && Acyclic(s.links)
    modifies player
    ensures player.paused == old(player.paused)
    ensures |passes| == |player.transitions| + 1 == |UpdatedTransitions(old(player.transitions), dt)| + 1
    ensures passes[0].weight == 1.0
    ensures Applied(old(player.animation), player.paused, dt, assets, s, root, playerParent, player.animation, passes[0].pass)
    ensures AppliedEach(UpdatedTransitions(old(player.transitions), dt), player.paused, dt, assets, s, root, playerParent,
                        player.transitions, passes[1..])
    ensures forall i | 1 <= i < |passes| :: passes[i].weight > 0.0
  {
    player.UpdateTransitions(dt);
    UpdatedTransitionsKeep(old(player.transitions), dt);
    passes := player.RunAnimationPlayer(dt, true, assets, s, root, playerParent);
  }

  /** One player's frame as the pause check intends it: the run is skipped
      when the player is paused and nothing touched it since the last frame
      (`touched` is that change flag, unaffected by the fade update). */
  method AnimatePlayerIntended(player: AnimationPlayer, dt: real, touched: bool, assets: map<ClipId, AnimationClip>,
                               s: Scene, root: Entity, playerParent: Option<Entity>)
    returns (passes: seq<WeightedPass>)
    requires ValidAssets(assets) && Acyclic(s.links)
    modifies player
    ensures player.paused == old(player.paused)
    ensures old(player.paused) && !touched ==>
      && passes == [] && player.animation == old(player.animation)
      && player.transitions == UpdatedTransitions(old(player.transitions), dt)
    ensures !(old(player.paused) && !touched) ==>
      && |passes| == |player.transitions| + 1 == |UpdatedTransitions(old(player.transitions), dt)| + 1
      && passes[0].weight == 1.0
      && Applied(old(player.animation), player.paused, dt, assets, s, root, playerParent, player.animation, passes[0].pass)
      && AppliedEach(UpdatedTransitions(old(player.transitions), dt), player.paused, dt, assets, s, root, playerParent,
                     player.transitions, passes[1..])
  {
    player.UpdateTransitions(dt);
    passes := player.RunAnimationPlayer(dt, touched, assets, s, root, playerParent);
  }

  /** As written, a paused player whose clip is loaded and whose guard
      passes is still sampled every frame: its paths are resolved and its
      curves are written at the held time, although nothing changed. */
  lemma PausedFrameStillSamples(a: PlayingAnimation, dt: real, assets: map<ClipId, AnimationClip>,
                                s: Scene, root: Entity, playerParent: Option<Entity>,
                                a': PlayingAnimation, pass: Pass)
    requires ValidAssets(assets)
    requires a.clip.Some? && a.clip.value in assets && NoPlayerAbove(s.links, playerParent)
    requires Applied(a, true, dt, assets, s, root, playerParent, a', pass)
    ensures pass.Sampled? && pass.time == WrapTime(a.elapsed, assets[a.clip.value].duration)
  {
  }
}
