# bevy_animation playback core, modelled in Dafny

This project models the control logic of bevy's `bevy_animation` crate
(`crates/bevy_animation/src/lib.rs`) and proves properties of the model:

- the animation clip store (`AnimationClip`): per-bone curve lists, the map
  from entity paths to bone ids, and the cached clip duration;
- the playback state of one animation (`PlayingAnimation`, `RepeatAnimation`):
  the repeat policy, the per-frame time advance of `apply_animation` with
  its completion counting, sampling-time wrap and path-cache reset;
- the `AnimationPlayer` component: `start`, `start_with_transition`, `play`,
  `play_with_transition`, the getters and setters, `update_transitions`
  (the fading of replaced animations) and `run_animation_player`;
- the named-path resolver with its per-depth cache (`entity_from_path`);
- the ancestor guard (`verify_no_ancestor_player`) and why it keeps the
  entities of two running players apart;
- keyframe selection (binary search and the `match` on its result) and
  the morph-weight update `lerp_morph_weights`, whose flat keyframe layout
  follows the Animations section (3.11) of the glTF 2.0 specification.

Modelling choices:

- `f32` is `real`. Two IEEE outcomes matter to the control flow and are
  modelled explicitly. `x % 0.0` is NaN, so `WrapTime` returns `None` for a
  clip of zero duration at a non-negative time (a negative time on such a
  clip is kept as it is). `1.0 / 0.0` is infinite, so a transition started
  with a zero duration gets the rate `Infinite` and is dropped at the next
  `update_transitions`.
- Entities are `int`, names are `string`, clip handles are `int` ids, and the
  `Assets<AnimationClip>` store is a map from id to `AnimationClip` object.
- The ECS queries become a `Scene` value: the `Children` lists, the `Name`
  of each entity, and per entity whether it hosts an `AnimationPlayer` and
  who its `Parent` is. The frame time delta and the player's change flag
  are parameters.
- The parent relation is assumed acyclic (`AncestorGuard.Acyclic`); the
  guard's loop is proved to terminate under that assumption. Nothing in this
  crate enforces it, and on a cycle of parents none of which hosts a player
  the loop of `verify_no_ancestor_player` (lib.rs:396-406) never ends.
- `binary_search_by` is the standard library's loop. Its contract is the
  documented one: a found index holds the probe, otherwise the insertion
  point is returned.
- `apply_animation` iterates the clip's path `HashMap` in an unspecified
  order. The model picks paths in any order, and the proof shows the
  result does not depend on that order.
- `apply_animation` counts completions against the stored `elapsed` but
  wraps only a local copy of it (Finding 1). `RepeatAnimation::Count(n)` is
  documented to finish after running n times and `completions` to count the
  times the animation has completed (lib.rs:133, lib.rs:144-146), so every
  crossing of the clip's end should count once. `Playback.AdvanceTime`
  models the code as written; `Player.ApplyAnimation` uses
  `Playback.AdvanceTimeWrapped`, which stores the wrapped time back and
  counts a completion whenever the time wraps in the direction of play,
  including a forward frame that lands exactly on the end.
- Reverse play over the start of the clip adds one duration to the time:
  from 0.1 s by 0.3 s on a 2 s clip the sampling time is 1.8 s
  (`Playback.ReverseWrapExample`).
- `update_transitions` takes the player mutably through bevy's `Mut`
  wrapper (lib.rs:425), which marks the component changed, so the pause
  check of `run_animation_player` sees it changed (Finding 3).
  `Player.AnimatePlayer` follows the code as written for this pause check
  (a paused player is still applied every frame), but applies the animation
  with the corrected advance of Finding 1; `Player.AnimatePlayerIntended`
  passes the change flag the check means.

## Model

| member | source | states |
|---|---|---|
| Clip.BoneEndIsMaximum | crates/bevy_animation/src/lib.rs:106-109 | the end of one bone's curves is non-negative, at least every curve's last timestamp (0 for an empty curve), and either 0 or one of those timestamps |
| Clip.ClipEndIsMaximum | crates/bevy_animation/src/lib.rs:106-109 | the clip end over all bones is the maximum of every curve's last timestamp and 0, and is attained |
| Clip.ClipEndAfterAppend | crates/bevy_animation/src/lib.rs:106-113 | appending a curve to an existing bone moves the clip end to max(old end, the curve's last timestamp or 0) |
| Clip.ClipEndAfterNewBone | crates/bevy_animation/src/lib.rs:106-117 | adding a new bone holding one curve moves the clip end to max(old end, the curve's last timestamp or 0) |
| Clip.AnimationClip.constructor | crates/bevy_animation/src/lib.rs:68-74 | the default clip is empty, has duration 0 and satisfies the clip invariant |
| Clip.AnimationClip.Curves | crates/bevy_animation/src/lib.rs:79-81 | one entry per bone, entry b being what `GetCurves(b)` finds |
| Clip.AnimationClip.GetCurves | crates/bevy_animation/src/lib.rs:87-89 | a bone's curves are found exactly when the id is below the number of bones; in a valid clip every bone has at least one curve |
| Clip.AnimationClip.GetCurvesByPath | crates/bevy_animation/src/lib.rs:95-97 | a path's curves are found only through its registered bone id; in a valid clip exactly the registered paths have curves |
| Clip.AnimationClip.Duration | crates/bevy_animation/src/lib.rs:101-103 | the duration of a valid clip is non-negative and no curve has a last timestamp beyond it |
| Clip.AnimationClip.CompatibleWith | crates/bevy_animation/src/lib.rs:121-123 | in a valid clip the answer is true iff every path that has curves starts with the given name |
| Clip.AnimationClip.AddCurveToPath | crates/bevy_animation/src/lib.rs:106-118 | keeps the invariant (ids are distinct valid bone indices, every bone has curves, the duration is the clip end); the duration becomes max(old duration, last timestamp or 0); a known path gets the curve appended to its bone, a new path gets bone id = old bone count holding just the curve; every other path's curves are unchanged |
| Playback.Finished | crates/bevy_animation/src/lib.rs:165-171 | an animation repeating forever is never finished; a finished animation has completed at least once unless its count is zero |
| Playback.Starting | crates/bevy_animation/src/lib.rs:149-160 | the default animation plays the given clip from time 0 forward, and is not finished |
| Playback.FinishedPolicy | crates/bevy_animation/src/lib.rs:165-171 | `Forever` never finishes, `Never` finishes exactly as `Count(1)`, `Count(n)` finishes iff completions ≥ n, and more completions never un-finish an animation |
| Playback.FMod | crates/bevy_animation/src/lib.rs:556-558 | the float remainder of a non-negative time by a positive duration lies in [0, duration) and is the time minus a whole number of durations |
| Playback.WrapTime | crates/bevy_animation/src/lib.rs:556-561 | the sampling time is missing (NaN) exactly for a zero-duration clip at a non-negative time |
| Playback.WrapTimeRange | crates/bevy_animation/src/lib.rs:556-561 | for a positive duration and elapsed ≥ −duration the sampling time lies in [0, duration) and differs from elapsed by a whole number of durations; in-range times are kept; below −duration the result stays negative |
| Playback.AdvanceTime | crates/bevy_animation/src/lib.rs:545-563 | as written: at most one completion per frame, one cache slot per path of the clip, and a missing (NaN) sampling time exactly for a zero-duration clip at a non-negative stored time |
| Playback.AdvanceTimeEffect | crates/bevy_animation/src/lib.rs:545-563 | elapsed moves by dt·speed exactly when neither paused nor finished; at most one completion is added, exactly when the new elapsed is beyond the end in the direction of play; the path cache keeps its slots when the count matches the clip's paths and is otherwise reset to that many empty slots; repeat, speed and clip are unchanged |
| Playback.ForwardWrapExample | crates/bevy_animation/src/lib.rs:545-561 | from 1.9 s on a 2 s clip at speed 1, a 0.4 s frame samples at 0.3 s and counts one completion |
| Playback.ReverseWrapExample | crates/bevy_animation/src/lib.rs:545-561 | from 0.1 s on a 2 s clip at speed −1, a 0.3 s frame samples at 1.8 s and counts one completion |
| Playback.CompletionsRecountedAsWritten | crates/bevy_animation/src/lib.rs:545-561 | as written, frames of 0.4 s and 0.1 s from 1.9 s on a 2 s clip cross the end once (sampling at 0.3 s, then 0.4 s) but count two completions |
| Playback.ReverseLeavesClipAsWritten | crates/bevy_animation/src/lib.rs:545-561 | as written, reverse play from 0.1 s on a 2 s clip by 0.3 s and then 1.9 s stores −2.1 s and samples at −0.1 s, before the clip |
| Playback.AdvanceTimeWrapped | crates/bevy_animation/src/lib.rs:545-561 | the corrected advance: the as-written advance with the sampling time stored as the new elapsed time, and one completion added when a forward frame lands exactly on the end (where the wrap fires but the as-written count does not); everything else unchanged |
| Playback.WrappedAdvanceStaysInClip | crates/bevy_animation/src/lib.rs:545-561 | with the wrapped time written back, a stored time inside the clip stays inside it for any frame moving at most one duration, and a completion is counted exactly when the time wraps in the direction of play: forward at or beyond the end, backward below the start |
| Playback.CompletionsCountedOnceWrapped | crates/bevy_animation/src/lib.rs:545-561 | with the wrapped time written back, the two frames of the as-written counterexample count one completion |
| Playback.LandingOnEndCounted | crates/bevy_animation/src/lib.rs:545-561 | a run-once animation at 1.5 s on a 2 s clip, frame of 0.5 s: as written it wraps to 0 without counting and finishes only a frame later at 2.5 s; corrected it wraps to 0, counts one completion and finishes |
| Playback.PausedPastEndRecountsAsWritten | crates/bevy_animation/src/lib.rs:545-561 | as written, a paused animation stored at 5 s on a 2 s forward clip stays at 5 s and counts one more completion every frame |
| Playback.DeclineFor | crates/bevy_animation/src/lib.rs:235 | a zero transition duration gives an infinite rate; any other gives a positive rate that removes weight 1 over the duration |
| Playback.Decayed | crates/bevy_animation/src/lib.rs:664-667 | a kept transition has weight above zero and the same rate and animation |
| Playback.UpdatedTransitions | crates/bevy_animation/src/lib.rs:663-668 | the update never adds a transition |
| Playback.UpdatedTransitionsAppend | crates/bevy_animation/src/lib.rs:663-668 | updating a list is updating its two halves and concatenating: each transition is treated alone and the relative order is kept |
| Playback.UpdatedTransitionsKeep | crates/bevy_animation/src/lib.rs:663-668 | the update keeps exactly the decayed transitions whose weight stays above zero, all with positive weight, and never adds any |
| Playback.FadeOut | crates/bevy_animation/src/lib.rs:663-668 | a transition started at weight 1 for a duration d has weight 1 − k·dt/d after k frames of dt and is present exactly while k·dt < d |
| PathResolver.Resized | crates/bevy_animation/src/lib.rs:354 | the resized cache has one slot per path part, keeping old slots and filling new ones with `None` |
| PathResolver.FirstNamed | crates/bevy_animation/src/lib.rs:370-380 | the scan finds the first child with the wanted name, or reports that none has it |
| PathResolver.Walk | crates/bevy_animation/src/lib.rs:356-386 | the walk keeps one cache slot per part and only writes the slots of the depths it visits |
| PathResolver.Resolve | crates/bevy_animation/src/lib.rs:345-388 | the cache comes back with one slot per part, its first slot untouched; a path of at most one part resolves to the root itself |
| PathResolver.WalkSound | crates/bevy_animation/src/lib.rs:356-386 | a walk that succeeds from a valid prefix ends at the end of a named child chain, and the cache then remembers that chain |
| PathResolver.ResolveSound | crates/bevy_animation/src/lib.rs:345-388 | a resolved entity ends a chain from the root through children named by the path's parts, and the cache then holds that chain, one slot per depth; the cache always has one slot per part |
| PathResolver.WalkComplete | crates/bevy_animation/src/lib.rs:356-386 | with unique sibling names, a walk along an existing named chain reaches its end |
| PathResolver.ResolveComplete | crates/bevy_animation/src/lib.rs:345-388 | with unique sibling names, any chain spelling the path is found, whatever the cache holds |
| PathResolver.WalkCached | crates/bevy_animation/src/lib.rs:359-368 | a cache that holds a valid chain is trusted slot by slot and left unchanged |
| PathResolver.ResolveAgain | crates/bevy_animation/src/lib.rs:345-388 | resolving again with the cache a successful resolution left gives the same entity and leaves the cache unchanged |
| PathResolver.EntityFromPath | crates/bevy_animation/src/lib.rs:345-388 | the loop (cached slot first, then the scan that refreshes the slot) returns the entity and cache of the resolution specification |
| AncestorGuard.AncestorCompose | crates/bevy_animation/src/lib.rs:396-405 | climbing i + j parent links is climbing i and then j more |
| AncestorGuard.AncestorStops | crates/bevy_animation/src/lib.rs:397 | once the climb leaves the known entities it stays out |
| AncestorGuard.VerifyNoAncestorPlayer | crates/bevy_animation/src/lib.rs:391-407 | on acyclic parent links the guard passes iff no entity reached by climbing from the player's parent (the parent included) hosts a player; it passes when there is no parent |
| AncestorGuard.RootPlayerIsSafe | crates/bevy_animation/src/lib.rs:395 | a player without a parent passes the guard |
| AncestorGuard.GuardedPlayersAreDisjoint | crates/bevy_animation/src/lib.rs:574-585 | two players that both lie above one entity and both pass the guard are the same player |
| KeyframeSelection.BinarySearch | crates/bevy_animation/src/lib.rs:613-616 | the reported index is always in range; on sorted timestamps a found index holds the time, and otherwise everything before the insertion point is smaller and everything from it on is larger |
| KeyframeSelection.SelectKeyframe | crates/bevy_animation/src/lib.rs:613-625 | a chosen interval lies inside the timestamps, sorted or not |
| KeyframeSelection.Bracket | crates/bevy_animation/src/lib.rs:613-625 | for a time inside the timestamps, the last timestamp at or before it and the next one after it |
| KeyframeSelection.ReferenceStep | crates/bevy_animation/src/lib.rs:613-625 | a curve is bracketed iff ts[0] ≤ t < ts[last], then by a pair around t with factor in [0, 1); otherwise it is not started iff t < ts[0], and finished otherwise |
| KeyframeSelection.FractionInUnit | crates/bevy_animation/src/lib.rs:625 | the local factor of a time inside a non-empty interval lies in [0, 1) |
| KeyframeSelection.SelectMatchesReference | crates/bevy_animation/src/lib.rs:613-625 | on strictly increasing timestamps the search-based selection equals the reference selection, whichever index the search reports |
| KeyframeSelection.KeyframeStep | crates/bevy_animation/src/lib.rs:588-625 | a single-keyframe curve is used at any time; an empty one is never started; a chosen interval lies inside the timestamps; on strictly increasing timestamps the step is the reference step |
| KeyframeSelection.Blend | crates/bevy_animation/src/lib.rs:517-520 | one blended weight per weight (bounds and endpoints in `BlendBounds`) |
| KeyframeSelection.BlendBounds | crates/bevy_animation/src/lib.rs:518-520 | factor 0 keeps the weights, factor 1 gives the keyframe, and a factor in [0, 1] keeps each weight between its old value and the keyframe value |
| KeyframeSelection.KeyBlock | crates/bevy_animation/src/lib.rs:512-517 | keyframe k of a flat list with n targets per keyframe is the n values from n·k |
| KeyframeSelection.LerpMorphWeights | crates/bevy_animation/src/lib.rs:511-521 | every weight i becomes w·(1 − l) + keyframes[n·k + i]·l, with the keyframe block required to lie inside the list |
| KeyframeSelection.MorphStepAsWritten | crates/bevy_animation/src/lib.rs:652-655 | as written, the morph update at any local factor is the corrected update at factor 0, the start of the interval |
| KeyframeSelection.MorphStep | crates/bevy_animation/src/lib.rs:640-655 | the corrected morph update keeps one weight per target and leaves the weights alone at animation weight 0 |
| KeyframeSelection.MorphStepAsWrittenIgnoresLerp | crates/bevy_animation/src/lib.rs:652-655 | as written, halfway between keyframes of weight 0 and 1 at full animation weight the morph weight is 0; the corrected update gives 0.5 |
| KeyframeSelection.MorphStepAsWrittenJumps | crates/bevy_animation/src/lib.rs:652-655 | as written, the morph weight jumps from 0 to 1 when the sampling time passes a keyframe |
| KeyframeSelection.MorphStepContinuous | crates/bevy_animation/src/lib.rs:652-655 | the corrected update is continuous across keyframes: the end of one interval equals the start of the next |
| KeyframeSelection.MorphStepFullWeight | crates/bevy_animation/src/lib.rs:652-655 | at full animation weight the corrected update lands on the keyframes interpolated by the local factor |
| Player.ResolvePaths | crates/bevy_animation/src/lib.rs:570-573 | with distinct bone ids and in any path order, every bone's cache slot becomes what resolving its path from that slot gives, other slots are kept, and the targets are exactly the resolved entities |
| Player.ApplyAnimation | crates/bevy_animation/src/lib.rs:524-573 | without a loaded clip nothing changes; otherwise the time advance happens, with the wrapped time stored back (the correction of Finding 1); then, if the guard fails, nothing else happens; if it passes, every path is resolved through its bone's slot, sampling at the wrapped time |
| Player.ChainClimbsToRoot | crates/bevy_animation/src/lib.rs:574-585 | when children lists and parent links agree, climbing from the end of a child chain one link per step reaches its start |
| Player.ResolvedBelowRoot | crates/bevy_animation/src/lib.rs:574-585 | when children lists and parent links agree, an entity resolved from a root lies some number of parent links below that root |
| Player.GuardedPlayersTargetDisjointEntities | crates/bevy_animation/src/lib.rs:574-585 | two players that both pass the guard never resolve a path to the same entity unless they are the same player |
| Player.AnimationPlayer.constructor | crates/bevy_animation/src/lib.rs:185-199 | a default player is not paused, has a default animation without a clip and no transitions |
| Player.AnimationPlayer.Start | crates/bevy_animation/src/lib.rs:204-215 | the active animation becomes the default one with the given clip (elapsed 0, speed 1, repeat `Never`, no completions, empty cache), all transitions are dropped, and `paused` is kept |
| Player.AnimationPlayer.StartWithTransition | crates/bevy_animation/src/lib.rs:219-240 | the active animation becomes the default one with the given clip, and the replaced one is appended after the earlier transitions with weight 1 and rate 1/duration; `paused` is kept |
| Player.AnimationPlayer.ClipHandle | crates/bevy_animation/src/lib.rs:266-268 | the handle names exactly the clip `IsPlayingClip` reports |
| Player.AnimationPlayer.IsPlayingClip | crates/bevy_animation/src/lib.rs:271-277 | never true for a player without a clip |
| Player.AnimationPlayer.Play | crates/bevy_animation/src/lib.rs:245-250 | nothing changes when the clip is already playing and the player is not paused; otherwise the effect is exactly `Start` |
| Player.AnimationPlayer.PlayWithTransition | crates/bevy_animation/src/lib.rs:254-263 | nothing changes when the clip is already playing and the player is not paused; otherwise the effect is exactly `StartWithTransition` |
| Player.AnimationPlayer.IsFinished | crates/bevy_animation/src/lib.rs:280-282 | the active animation's repeat policy is met; an animation repeating forever never reports finished |
| Player.AnimationPlayer.IsPlaybackReversed | crates/bevy_animation/src/lib.rs:303-305 | true exactly when the speed is negative |
| Player.AnimationPlayer.IsPaused | crates/bevy_animation/src/lib.rs:318-320 | the paused flag |
| Player.AnimationPlayer.Speed | crates/bevy_animation/src/lib.rs:323-325 | the active animation's speed |
| Player.AnimationPlayer.Elapsed | crates/bevy_animation/src/lib.rs:334-336 | the active animation's stored time |
| Player.AnimationPlayer.Repeat | crates/bevy_animation/src/lib.rs:285-288 | the repeat policy becomes `Forever`; nothing else changes |
| Player.AnimationPlayer.StopRepeating | crates/bevy_animation/src/lib.rs:291-294 | the repeat policy becomes `Never`; nothing else changes |
| Player.AnimationPlayer.SetRepeat | crates/bevy_animation/src/lib.rs:297-300 | the repeat policy becomes the given one; nothing else changes |
| Player.AnimationPlayer.Pause | crates/bevy_animation/src/lib.rs:308-310 | the player is paused; the animation and transitions are unchanged |
| Player.AnimationPlayer.Resume | crates/bevy_animation/src/lib.rs:313-315 | the player is not paused; the animation and transitions are unchanged |
| Player.AnimationPlayer.SetSpeed | crates/bevy_animation/src/lib.rs:328-331 | the speed becomes the given one; nothing else changes |
| Player.AnimationPlayer.SetElapsed | crates/bevy_animation/src/lib.rs:339-342 | the elapsed time becomes the given one; nothing else changes |
| Player.AnimationPlayer.UpdateTransitions | crates/bevy_animation/src/lib.rs:663-668 | the in-place `retain_mut` loop leaves exactly the transitions of the decay specification, in order |
| Player.ApplyTransitions | crates/bevy_animation/src/lib.rs:477-497 | each fading animation is applied in order at its current weight, and keeps its weight and rate |
| Player.AnimationPlayer.RunAnimationPlayer | crates/bevy_animation/src/lib.rs:442-503 | paused and unchanged: nothing happens; otherwise the main animation is applied at weight 1, then each transition in order at its current weight, and each transition keeps its weight and rate |
| Player.AnimatePlayer | crates/bevy_animation/src/lib.rs:424-437 | one player's frame as written: the transitions are decayed first; then, paused or not, the main animation is applied at weight 1 (its time held when paused, then wrapped into the clip and stored back by the corrected advance) and each surviving transition after it at its own positive weight; the new animation and transitions are those of the applications |
| Player.AnimatePlayerIntended | crates/bevy_animation/src/lib.rs:454-458 | the frame the pause check intends: a paused player nobody touched keeps its animation, only its transitions decay and nothing is applied; otherwise as `AnimatePlayer` |
| Player.PausedFrameStillSamples | crates/bevy_animation/src/lib.rs:454-458 | as written, a paused player with a loaded clip whose guard passes is sampled every frame, at its held time wrapped into the clip |

## Left out

- Writes into `Transform` and `MorphWeights` (`slerp`, `lerp`, `normalize`, the shortest-path sign flip, lib.rs:588-657) are floating-point operations on library types. The model reports, per pass, the sampling time, the blend weight and the resolved target entities. Keyframe selection and the morph-weight update are modelled on their own (`KeyframeSelection`).
- The `get_unchecked` fetches of `Transform` and `MorphWeights` and the check that a target has a `Transform`: `Player.Pass` lists every resolved entity.
- The `animation_player` system's parallel iteration over players (`par_iter_mut`) is concurrency. `Player.AnimatePlayer` models one player's frame, and `Player.GuardedPlayersTargetDisjointEntities` states why two players' targets are apart.
- Change detection (`is_changed`, `Mut`) belongs to bevy_ecs, which is not part of this model. `is_changed` becomes the `changed` parameter of `RunAnimationPlayer`, and `AnimatePlayer` passes true, because the mutable borrow of the player for `update_transitions` (lib.rs:425) marks it changed.
- `warn!` logging, the `Reflect`/`TypeUuid` derives and `AnimationPlugin::build` (app wiring) are left out.
- f32 rounding and the exact IEEE remainder are not modelled. `FMod` is the mathematical remainder, which the float `%` rounds.
- `completions` and `Count(n)` are `u32` in the engine. The model uses unbounded naturals, so the wrap of `completions += 1` after 2³² completions is not modelled.
- A NaN sampling time (a zero-duration clip played at a non-negative time) makes `partial_cmp(..).unwrap()` panic in the binary search of any curve with two or more keyframes. `ApplyAnimation` reports such a time as `None` and does not model the panic.
- `binary_search_by` is modelled by the standard library's loop and its documented contract, not by any particular version's code.
- KeyframeSelection.SelectMatchesReference: on timestamps that are only sorted (with repeats) the search may report any equal index, so equality with the reference is stated for strictly increasing timestamps only. The bounds of the chosen interval hold for any input.
- Clip.AnimationClip.CompatibleWith: requires every path to have a first part. The engine indexes `parts[0]` unchecked and panics on an empty path.
- Player.ApplyAnimation: uses the corrected advance of Finding 1. As written, the stored time is never wrapped, so it leaves the clip and stays outside; and a paused or finished animation whose stored time lies past the end in the direction of play counts a completion every frame (`Playback.PausedPastEndRecountsAsWritten`). `Playback.AdvanceTime` models that behaviour.
- Player.AnimatePlayer: applies the main animation and the transitions through `ApplyAnimation`, so the same holds: as written, a paused player at 5 s on a 2 s clip keeps 5 s stored and counts a completion every frame, where the model stores 1 s and counts that one completion once.
- AncestorGuard.VerifyNoAncestorPlayer: requires acyclic parent links. On a cycle of parents none of which hosts a player the source loop never terminates; that non-termination is not modelled.
- Playback.WrapTimeRange: the range [0, duration) is stated only for elapsed ≥ −duration. Below that the code's single addition of one duration leaves the time negative, and the lemma states that too.

## Findings

| source | as written | input that shows it | evidently intended | confidence | as-written member | corrected member |
|---|---|---|---|---|---|---|
| crates/bevy_animation/src/lib.rs:545-561 | the wrapped time is computed into a local copy and never stored, so `elapsed` stays past the end and every later frame counts another completion | 2 s clip, speed 1, elapsed 1.9 s, frames of 0.4 s then 0.1 s: one crossing, two completions (`Repeat::Count(2)` would finish after one pass). In reverse the stored time is never brought back: from 0.1 s at speed −1, frames of 0.3 s and 1.9 s store −2.1 s and sample at −0.1 s, before the first keyframe, so no curve with several keyframes whose first timestamp is at or after 0 is written (`Playback.ReverseLeavesClipAsWritten`) | store the wrapped time back into `elapsed`, and count a completion whenever the time wraps in the direction of play (a forward frame landing exactly on the end included), so that each crossing counts once | high (not executed) | Playback.CompletionsRecountedAsWritten | Playback.WrappedAdvanceStaysInClip |
| crates/bevy_animation/src/lib.rs:652-655 | a morph-weight curve between keyframes `step` and `step + 1` blends toward keyframe `step` by the animation weight; the local factor `lerp` and keyframe `step + 1` are unused | keyframes [0, 1] at times [0, 1], sampled at 0.5 s with weight 1: the morph weight is 0, not 0.5; with keyframes [0, 1, 1] at times [0, 1, 2] it stays 0 up to just before 1 s and jumps to 1 at 1 s | interpolate keyframes `step` and `step + 1` by `lerp`, then blend the result in by the weight, as is done for translation and scale | medium (not executed) | KeyframeSelection.MorphStepAsWrittenIgnoresLerp | KeyframeSelection.MorphStepContinuous |
| crates/bevy_animation/src/lib.rs:424-437 | `update_transitions` takes the player through `Mut`, which marks it changed, before `run_animation_player` asks `is_changed()` (lib.rs:457); the skip of a paused, untouched player never happens | a paused player with a loaded clip, guard passing, that nothing changed this frame: it is still sampled at full weight and its paths resolved every frame | skip the run when the player is paused and was not changed by anything but the fade update | medium (not executed) | Player.PausedFrameStillSamples | Player.AnimatePlayerIntended |
