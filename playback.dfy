/** The playback state of one animation (`PlayingAnimation`), its repeat
    policy, the per-frame time advance of `apply_animation`, and the fading
    transitions an `AnimationPlayer` keeps. */
module Playback {
  import opened Common

  /** `RepeatAnimation`; the count is a `u32` in the engine. */
  datatype RepeatAnimation = Forever | Never | Count(n: nat)

  /** `PlayingAnimation`: `elapsed` is in seconds and is negative under
      reverse playback; `pathCache` holds, per bone, one cached entity per
      path depth. `completions` is a `u32` in the engine. */
  datatype PlayingAnimation = PlayingAnimation(
    repeat: RepeatAnimation,
    speed: real,
    elapsed: real,
    clip: Option<ClipId>,
    pathCache: seq<seq<Option<Entity>>>,
    completions: nat)

  /** `PlayingAnimation::default()`, playing `clip`: at the start, forward
      at normal speed, and not finished. */
  function Starting(clip: Option<ClipId>): (r: PlayingAnimation)
    ensures r.clip == clip && r.elapsed == 0.0 && r.speed > 0.0
    ensures !Finished(r)
  {
    PlayingAnimation(Never, 1.0, 0.0, clip, [], 0)
  }

  /** `PlayingAnimation::finished`: only a bounded policy finishes, and
      only after a completion unless its count is zero. */
  predicate Finished(a: PlayingAnimation): (r: bool)
    ensures a.repeat.Forever? ==> !r
    ensures r ==> a.completions >= 1 || a.repeat == Count(0)
  {
    match a.repeat
    case Forever => false
    case Never => a.completions >= 1
    case Count(n) => a.completions >= n
  }

  /** The repeat policies: `Forever` never finishes, `Never` finishes on the
      first completion exactly as `Count(1)` does, `Count(n)` finishes once
      `n` completions are reached and not before, and more completions never
      un-finish an animation. */
  lemma FinishedPolicy(a: PlayingAnimation, more: nat)
    ensures a.repeat.Forever? ==> !Finished(a.(completions := more))
    ensures Finished(a.(repeat := Never)) == Finished(a.(repeat := Count(1)))
    ensures a.repeat.Count? ==> (Finished(a) <==> a.completions >= a.repeat.n)
    ensures Finished(a) && more >= a.completions ==> Finished(a.(completions := more))
  {
  }

  /** `x % d` on floats for `x >= 0` and `d > 0`: what is left of `x` after
      taking out a whole number of `d`. */
  function FMod(x: real, d: real): (r: real)
    requires x >= 0.0 && d > 0.0
    ensures 0.0 <= r < d
    ensures r == x - (x / d).Floor as real * d
  {
    var q := x / d;
    var f := q.Floor as real;
    FloorTimes(x, d, q, f);
    x - f * d
  }

  lemma FloorTimes(x: real, d: real, q: real, f: real)
    requires d > 0.0 && q * d == x && f <= q < f + 1.0
    ensures f * d <= x < f * d + d
  {
    assert f * d <= q * d < f * d + d by {
      assert (q - f) * d >= 0.0;
      assert (f + 1.0 - q) * d > 0.0;
    }
    calc { x; == q * d; < f * d + d; }
    calc { f * d; <= q * d; == x; }
  }

  /** The sampling time `apply_animation` derives from `elapsed`: taken
      modulo the duration when at or past it, moved up by one duration when
      negative. `None` is the NaN a zero duration produces. */
  function WrapTime(elapsed: real, duration: real): (r: Option<real>)
    requires duration >= 0.0
    ensures r.None? <==> duration == 0.0 && elapsed >= 0.0
  {
    if elapsed >= duration then
      if duration == 0.0 then None else Some(FMod(elapsed, duration))
    else if elapsed < 0.0 then Some(elapsed + duration)
    else Some(elapsed)
  }

  /** For a positive duration and an elapsed time no earlier than minus one
      duration, the sampling time lies in `[0, duration)` and differs from
      `elapsed` by a whole number of durations; times already in range are
      kept; below minus one duration the result stays negative. */
  lemma WrapTimeRange(elapsed: real, duration: real)
    requires duration > 0.0
    ensures elapsed >= -duration ==>
      && WrapTime(elapsed, duration).Some?
      && 0.0 <= WrapTime(elapsed, duration).value < duration
      && WholeMultiple(elapsed - WrapTime(elapsed, duration).value, duration)
    ensures 0.0 <= elapsed < duration ==> WrapTime(elapsed, duration) == Some(elapsed)
    ensures elapsed < -duration ==> WrapTime(elapsed, duration) == Some(elapsed + duration) && elapsed + duration < 0.0
  {
    if elapsed >= duration {
      var k := (elapsed / duration).Floor as real;
      assert elapsed - WrapTime(elapsed, duration).value == k * duration;
      assert k * duration / duration == k;
    } else if elapsed < 0.0 {
      assert elapsed - WrapTime(elapsed, duration).value == -duration;
      assert -duration / duration == -1.0;
    } else if elapsed >= -duration {
      assert elapsed - WrapTime(elapsed, duration).value == 0.0;
    }
  }

  /** `x` is a whole number of `d`. */
  predicate WholeMultiple(x: real, d: real)
    requires d > 0.0
  {
    (x / d).Floor as real == x / d
  }

  /** The state after the time-advance part of `apply_animation`, and the
      time the curves are sampled at. */
  datatype Advance = Advance(animation: PlayingAnimation, time: Option<real>)

  /** The advance as `apply_animation` does it: move `elapsed` by
      `dt * speed` unless finished or paused; count a completion when
      `elapsed` lies beyond the end in the direction of play; sample at the
      wrapped time, which is not written back; reset the path cache to one
      empty slot per path when its length is off. */
  function AdvanceTime(a: PlayingAnimation, paused: bool, dt: real, duration: real, pathCount: nat): (r: Advance)
    requires duration >= 0.0
    ensures a.completions <= r.animation.completions <= a.completions + 1
    ensures |r.animation.pathCache| == pathCount
    ensures r.time.None? <==> duration == 0.0 && r.animation.elapsed >= 0.0
  {
    var elapsed := if !Finished(a) && !paused then a.elapsed + dt * a.speed else a.elapsed;
    var crossed := (elapsed > duration && a.speed > 0.0) || (elapsed < 0.0 && a.speed < 0.0);
    var cache := if |a.pathCache| != pathCount then seq(pathCount, _ => []) else a.pathCache;
    Advance(
      a.(elapsed := elapsed, completions := if crossed then a.completions + 1 else a.completions, pathCache := cache),
      WrapTime(elapsed, duration))
  }

  /** What one advance changes: `elapsed` moves by `dt * speed` exactly when
      neither paused nor finished; at most one completion is added, exactly
      when the new `elapsed` lies beyond the end in the direction of play;
      the cache keeps its slots when their count matches and is otherwise
      emptied to the right count; nothing else changes. */
  lemma AdvanceTimeEffect(a: PlayingAnimation, paused: bool, dt: real, duration: real, pathCount: nat)
    requires duration >= 0.0
    ensures var r := AdvanceTime(a, paused, dt, duration, pathCount).animation;
      && r.repeat == a.repeat && r.speed == a.speed && r.clip == a.clip
      && (paused || Finished(a) ==> r.elapsed == a.elapsed)
      && (!paused && !Finished(a) ==> r.elapsed == a.elapsed + dt * a.speed)
      && (r.completions == a.completions || r.completions == a.completions + 1)
      && (r.completions == a.completions + 1 <==>
            (r.elapsed > duration && a.speed > 0.0) || (r.elapsed < 0.0 && a.speed < 0.0))
      && |r.pathCache| == pathCount
      && (|a.pathCache| == pathCount ==> r.pathCache == a.pathCache)
      && (|a.pathCache| != pathCount ==> forall b | 0 <= b < pathCount :: r.pathCache[b] == [])
  {
  }

  /** Playing forward over the end of a 2 s clip, from 1.9 s by 0.4 s,
      samples at 0.3 s and counts one completion. */
  lemma ForwardWrapExample()
    ensures var r := AdvanceTime(PlayingAnimation(Forever, 1.0, 1.9, Some(0), [], 0), false, 0.4, 2.0, 0);
      r.time == Some(0.3) && r.animation.completions == 1
  {
    assert (2.3 / 2.0).Floor == 1;
  }

  /** Playing backward over the start of a 2 s clip, from 0.1 s by 0.3 s,
      samples at 1.8 s, one duration minus 0.2 s, and counts one completion. */
  lemma ReverseWrapExample()
    ensures var r := AdvanceTime(PlayingAnimation(Forever, -1.0, 0.1, Some(0), [], 0), false, 0.3, 2.0, 0);
      r.time == Some(1.8) && r.animation.completions == 1
  {
  }

  /** As written, the wrapped time is not stored: once `elapsed` is past the
      end, every later frame counts another completion. From 1.9 s on a 2 s
      clip, a 0.4 s frame and a 0.1 s frame cross the end once (the sampling
      time goes 0.3 s, then 0.4 s) but count two completions. */
  lemma CompletionsRecountedAsWritten()
    ensures
      var a := PlayingAnimation(Forever, 1.0, 1.9, Some(0), [], 0);
      var first := AdvanceTime(a, false, 0.4, 2.0, 0);
      var second := AdvanceTime(first.animation, false, 0.1, 2.0, 0);
      && first.time == Some(0.3) && second.time == Some(0.4)
      && second.animation.completions == 2
  {
    assert (2.3 / 2.0).Floor == 1;
    assert (2.4 / 2.0).Floor == 1;
  }

  /** As written, reverse play never brings the stored time back into the
      clip: from 0.1 s on a 2 s clip at speed -1, a 0.3 s frame stores
      -0.2 s and a 1.9 s frame stores -2.1 s, which the single addition of
      one duration turns into a sampling time of -0.1 s, before the clip. */
  lemma ReverseLeavesClipAsWritten()
    ensures
      var a := PlayingAnimation(Forever, -1.0, 0.1, Some(0), [], 0);
      var first := AdvanceTime(a, false, 0.3, 2.0, 0);
      var second := AdvanceTime(first.animation, false, 1.9, 2.0, 0);
      && first.time == Some(1.8) && second.animation.elapsed == -2.1
      && second.time == Some(-0.1)
  {
  }

  /** Whether a frame lands exactly on the end of a clip going forward. The
      wrap fires there (the sampling time becomes 0) while the count of
      `AdvanceTime` asks for a time strictly past the end. */
  predicate LandsOnEnd(moved: real, speed: real, duration: real)
  {
    moved == duration && duration > 0.0 && speed > 0.0
  }

  /** The advance with the sampling time written back to `elapsed`, so that
      the stored time stays inside the clip, and with a completion counted
      for every wrap in the direction of play, a forward frame landing
      exactly on the end included. */
  function AdvanceTimeWrapped(a: PlayingAnimation, paused: bool, dt: real, duration: real, pathCount: nat): (r: Advance)
    requires duration >= 0.0
    ensures var w := AdvanceTime(a, paused, dt, duration, pathCount);
      var extra := if LandsOnEnd(w.animation.elapsed, a.speed, duration) then 1 else 0;
      && r.time == w.time
      && (r.time.Some? ==> r.animation == w.animation.(elapsed := r.time.value, completions := w.animation.completions + extra))
      && (r.time.None? ==> r.animation == w.animation)
  {
    var w := AdvanceTime(a, paused, dt, duration, pathCount);
    var completions := if LandsOnEnd(w.animation.elapsed, a.speed, duration) then w.animation.completions + 1 else w.animation.completions;
    if w.time.Some? then Advance(w.animation.(elapsed := w.time.value, completions := completions), w.time) else w
  }

  /** With the time written back, an animation whose stored time is inside
      a clip of positive duration keeps it inside, as long as one frame
      moves it by at most one duration; and a completion is counted exactly
      for the frames whose time wraps in the direction of play: forward at
      or beyond the end, backward below the start. */
  lemma WrappedAdvanceStaysInClip(a: PlayingAnimation, paused: bool, dt: real, duration: real, pathCount: nat)
    requires duration > 0.0 && 0.0 <= a.elapsed < duration
    requires -duration <= dt * a.speed <= duration
    ensures var r := AdvanceTimeWrapped(a, paused, dt, duration, pathCount).animation;
      var moved := if !Finished(a) && !paused then a.elapsed + dt * a.speed else a.elapsed;
      && 0.0 <= r.elapsed < duration
      && r.completions == a.completions + (if (moved >= duration && a.speed > 0.0) || (moved < 0.0 && a.speed < 0.0) then 1 else 0)
  {
    var moved := if !Finished(a) && !paused then a.elapsed + dt * a.speed else a.elapsed;
    var w := AdvanceTime(a, paused, dt, duration, pathCount);
    assert w.animation.elapsed == moved && w.time == WrapTime(moved, duration);
    WrapTimeRange(moved, duration);
  }

  /** The frames of `CompletionsRecountedAsWritten`, with the time written
      back: one crossing, one completion. */
  lemma CompletionsCountedOnceWrapped()
    ensures
      var a := PlayingAnimation(Forever, 1.0, 1.9, Some(0), [], 0);
      var first := AdvanceTimeWrapped(a, false, 0.4, 2.0, 0);
      var second := AdvanceTimeWrapped(first.animation, false, 0.1, 2.0, 0);
      && first.time == Some(0.3) && second.time == Some(0.4)
      && second.animation.completions == 1
  {
    assert (2.3 / 2.0).Floor == 1;
  }

  /** A run-once animation 1.5 s into a 2 s clip, two frames of 0.5 s. As
      written the first frame stores 2.0 s (sampled at 0) without counting,
      and only the second counts and finishes. With the time written back the
      first frame wraps to 0 and counts, so the animation finishes there. */
  lemma LandingOnEndCounted()
    ensures
      var a := PlayingAnimation(Never, 1.0, 1.5, Some(0), [], 0);
      var first := AdvanceTime(a, false, 0.5, 2.0, 0);
      var second := AdvanceTime(first.animation, false, 0.5, 2.0, 0);
      var wrapped := AdvanceTimeWrapped(a, false, 0.5, 2.0, 0);
      && first.time == Some(0.0) && first.animation.completions == 0 && !Finished(first.animation)
      && second.animation.completions == 1 && Finished(second.animation)
      && wrapped.time == Some(0.0) && wrapped.animation.elapsed == 0.0
      && wrapped.animation.completions == 1 && Finished(wrapped.animation)
  {
    assert (2.0 / 2.0).Floor == 1;
    assert (2.5 / 2.0).Floor == 1;
  }

  /** As written, a paused animation whose stored time lies past the end of
      a forward clip counts a completion on every frame, without moving. */
  lemma PausedPastEndRecountsAsWritten()
    ensures
      var a := PlayingAnimation(Forever, 1.0, 5.0, Some(0), [], 0);
      var first := AdvanceTime(a, true, 0.1, 2.0, 0);
      var second := AdvanceTime(first.animation, true, 0.1, 2.0, 0);
      && first.animation.elapsed == 5.0 && second.animation.elapsed == 5.0
      && first.animation.completions == 1 && second.animation.completions == 2
  {
  }

  /** How fast a transition's weight falls. A zero transition duration gives
      `1 / 0`, an infinite rate. */
  datatype Decline = PerSecond(rate: real) | Infinite

  /** `AnimationTransition`: a replaced animation fading out. */
  datatype AnimationTransition = AnimationTransition(
    currentWeight: real,
    decline: Decline,
    animation: PlayingAnimation)

  /** `1.0 / transition_duration.as_secs_f32()`. */
  function DeclineFor(transitionDuration: real): (r: Decline)
    requires transitionDuration >= 0.0
    ensures r.Infinite? <==> transitionDuration == 0.0
    ensures r.PerSecond? ==> r.rate > 0.0 && r.rate * transitionDuration == 1.0
  {
    if transitionDuration == 0.0 then Infinite else PerSecond(1.0 / transitionDuration)
  }

  /** One transition after `dt` seconds: its weight lowered by rate times
      `dt`, kept only while the weight is above zero. An infinite rate drops
      it at once (its weight becomes minus infinity, or NaN when `dt` is 0). */
  function Decayed(t: AnimationTransition, dt: real): (r: Option<AnimationTransition>)
    ensures r.Some? ==> r.value.currentWeight > 0.0
    ensures r.Some? ==> r.value.decline == t.decline && r.value.animation == t.animation
  {
    if t.decline.Infinite? then None
    else
      var w := t.currentWeight - t.decline.rate * dt;
      if w > 0.0 then Some(t.(currentWeight := w)) else None
  }

  /** `update_transitions`: every transition decayed, the dropped ones
      removed, the rest in their order. */
  function UpdatedTransitions(ts: seq<AnimationTransition>, dt: real): (r: seq<AnimationTransition>)
    ensures |r| <= |ts|
  {
    if ts == [] then []
    else match Decayed(ts[0], dt)
      case None => UpdatedTransitions(ts[1..], dt)
      case Some(t) => [t] + UpdatedTransitions(ts[1..], dt)
  }

  /** Updating a list is updating its two halves and concatenating: the
      update works on each transition alone and keeps the relative order. */
  lemma {:induction false} UpdatedTransitionsAppend(xs: seq<AnimationTransition>, ys: seq<AnimationTransition>, dt: real)
    ensures UpdatedTransitions(xs + ys, dt) == UpdatedTransitions(xs, dt) + UpdatedTransitions(ys, dt)
  {
    if xs != [] {
      assert (xs + ys)[0] == xs[0] && (xs + ys)[1..] == xs[1..] + ys;
      UpdatedTransitionsAppend(xs[1..], ys, dt);
    } else {
      assert xs + ys == ys;
    }
  }

  /** The update keeps exactly the decayed transitions whose weight stays
      above zero, and no more transitions than there were. */
  lemma {:induction false} UpdatedTransitionsKeep(ts: seq<AnimationTransition>, dt: real)
    ensures |UpdatedTransitions(ts, dt)| <= |ts|
    ensures forall u | u in UpdatedTransitions(ts, dt) :: u.currentWeight > 0.0
    ensures forall u :: u in UpdatedTransitions(ts, dt) <==> exists t | t in ts :: Decayed(t, dt) == Some(u)
  {
    if ts != [] {
      UpdatedTransitionsKeep(ts[1..], dt);
      assert forall t :: t in ts <==> t == ts[0] || t in ts[1..];
    }
  }

  /** Applying the update `k` times, one frame of `dt` each. */
  function UpdatedTimes(ts: seq<AnimationTransition>, dt: real, k: nat): seq<AnimationTransition>
  {
    if k == 0 then ts else UpdatedTransitions(UpdatedTimes(ts, dt, k - 1), dt)
  }

  /** A transition started with weight 1 for a duration `d` fades linearly:
      after `k` frames of `dt` its weight is `1 - k * dt / d`, and it is
      still there exactly while `k * dt < d`. */
  lemma {:induction false} FadeOut(t: AnimationTransition, d: real, dt: real, k: nat)
    requires d > 0.0 && dt > 0.0
    requires t.currentWeight == 1.0 && t.decline == DeclineFor(d)
    ensures Faded(t, d, dt, k)
  {
    if k > 0 {
      FadeOut(t, d, dt, k - 1);
      FadeStep(t, d, dt, k);
    }
  }

  /** After `k` frames of `dt` the transition has weight `1 - k * dt / d`
      while `k * dt < d`, and is gone from then on. */
  ghost predicate Faded(t: AnimationTransition, d: real, dt: real, k: nat)
    requires d > 0.0
  {
    UpdatedTimes([t], dt, k) ==
      if k as real * dt < d then [t.(currentWeight := 1.0 - k as real * dt / d)] else []
  }

  /** One frame of the fade, from the state after `k - 1` frames. */
  lemma FadeStep(t: AnimationTransition, d: real, dt: real, k: nat)
    requires d > 0.0 && dt > 0.0 && k > 0
    requires t.currentWeight == 1.0 && t.decline == DeclineFor(d)
    requires Faded(t, d, dt, k - 1)
    ensures Faded(t, d, dt, k)
  {
    var y := (k - 1) as real * dt;
    assert k as real * dt == y + dt;
    if y < d {
      DecayOnce(t, d, dt, y);
    }
  }

  /** One frame of `dt` from weight `1 - y / d`. */
  lemma DecayOnce(t: AnimationTransition, d: real, dt: real, y: real)
    requires d > 0.0 && dt > 0.0 && t.decline == PerSecond(1.0 / d)
    ensures UpdatedTransitions([t.(currentWeight := 1.0 - y / d)], dt) ==
      if y + dt < d then [t.(currentWeight := 1.0 - (y + dt) / d)] else []
  {
    var u := t.(currentWeight := 1.0 - y / d);
    SingleUpdate(u, dt);
    assert (1.0 - y / d) - (1.0 / d) * dt == 1.0 - (y + dt) / d by { LinearFade(y, dt, d); }
    assert 1.0 - (y + dt) / d > 0.0 <==> y + dt < d by { FractionBelowOne(y + dt, d); }
    var z := 1.0 - (y + dt) / d;
    assert u.(currentWeight := z) == t.(currentWeight := z);
    var w := u.currentWeight - u.decline.rate * dt;
    calc {
      w;
      == (1.0 - y / d) - (1.0 / d) * dt;
      == z;
    }
    assert u.decline.PerSecond?;
    if w > 0.0 {
      assert Decayed(u, dt).Some?;
      assert Decayed(u, dt).value == u.(currentWeight := w);
    } else {
      assert Decayed(u, dt).None?;
    }
  }

  lemma SingleUpdate(u: AnimationTransition, dt: real)
    ensures UpdatedTransitions([u], dt) == if Decayed(u, dt).Some? then [Decayed(u, dt).value] else []
  {
    assert [u][1..] == [];
  }

  lemma LinearFade(y: real, dt: real, d: real)
    requires d > 0.0
    ensures (1.0 - y / d) - (1.0 / d) * dt == 1.0 - (y + dt) / d
  {
    assert y / d + (1.0 / d) * dt == (y + dt) / d;
  }

  lemma FractionBelowOne(x: real, d: real)
    requires d > 0.0
    ensures 1.0 - x / d > 0.0 <==> x < d
  {
    assert x / d * d == x;
    if x < d {
      assert x / d < 1.0;
    } else {
      assert x / d >= 1.0;
    }
  }
}
