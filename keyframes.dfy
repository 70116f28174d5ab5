/** Keyframe selection in `apply_animation`: which pair of keyframes of a
    curve brackets the sampling time, and with which local factor; and the
    morph-weight update `lerp_morph_weights`. */
module KeyframeSelection {

  /** The two outcomes of `binary_search_by`. */
  datatype SearchResult = Found(index: nat) | NotFound(insertAt: nat)

  /** What the sampler does with one curve at one time. */
  datatype KeyStep =
    | SingleKey                      // one keyframe: blend it in directly
    | NotStarted                     // before the first keyframe: skip
    | Ended                          // at or after the last keyframe: skip
    | Between(start: nat, lerp: real) // between keyframes start and start + 1
    | ZeroWidth(start: nat)          // two equal timestamps: the factor is 0/0

  predicate Sorted(ts: seq<real>)
  {
    forall i, j | 0 <= i < j < |ts| :: ts[i] <= ts[j]
  }

  predicate StrictlyIncreasing(ts: seq<real>)
  {
    forall i, j | 0 <= i < j < |ts| :: ts[i] < ts[j]
  }

  /** The documented contract of `binary_search_by` on a sorted slice: a
      found index holds the probe; otherwise the insertion point, with
      everything before it smaller and everything from it on larger. */
  predicate SearchContract(ts: seq<real>, t: real, r: SearchResult)
  {
    match r
    case Found(i) => i < |ts| && ts[i] == t
    case NotFound(i) =>
      && i <= |ts|
      && (forall j | 0 <= j < i :: ts[j] < t)
      && (forall j | i <= j < |ts| :: t < ts[j])
  }

  /** The standard library's `binary_search_by`, comparing each probe with
      `t`. The returned index is always in range; on sorted input the
      result meets the documented contract. */
  method BinarySearch(ts: seq<real>, t: real) returns (r: SearchResult)
    ensures r.Found? ==> r.index < |ts|
    ensures r.NotFound? ==> r.insertAt <= |ts|
    ensures Sorted(ts) ==> SearchContract(ts, t, r)
  {
    var size := |ts|;
    var left := 0;
    var right := size;
    while left < right
      invariant 0 <= left <= right <= |ts|
      invariant size == right - left
      invariant Sorted(ts) ==> forall j | 0 <= j < left :: ts[j] < t
      invariant Sorted(ts) ==> forall j | right <= j < |ts| :: t < ts[j]
    {
      var mid := left + size / 2;
      if ts[mid] < t {
        left := mid + 1;
      } else if ts[mid] > t {
        right := mid;
      } else {
        return Found(mid);
      }
      size := right - left;
    }
    return NotFound(left);
  }

  /** The interval starting at keyframe `s` and the position of `t` in it. */
  function Interval(ts: seq<real>, t: real, s: nat): KeyStep
    requires s + 1 < |ts|
  {
    if ts[s + 1] == ts[s] then ZeroWidth(s) else Between(s, (t - ts[s]) / (ts[s + 1] - ts[s]))
  }

  /** The `match` on the search result in `apply_animation`. A chosen
      interval always lies inside the timestamps, sorted or not. */
  function SelectKeyframe(ts: seq<real>, t: real, r: SearchResult): (k: KeyStep)
    requires r.Found? ==> r.index < |ts|
    requires r.NotFound? ==> r.insertAt <= |ts|
    ensures (k.Between? || k.ZeroWidth?) ==> k.start + 1 < |ts|
    ensures !k.SingleKey?
  {
    match r
    case Found(n) => if n >= |ts| - 1 then Ended else Interval(ts, t, n)
    case NotFound(n) =>
      if n == 0 then NotStarted
      else if n > |ts| - 1 then Ended
      else Interval(ts, t, n - 1)
  }

  /** The last keyframe at or before `t`, for `t` inside the timestamps. */
  function Bracket(ts: seq<real>, t: real): (s: nat)
    requires |ts| >= 2 && ts[0] <= t < ts[|ts| - 1]
    ensures s + 1 < |ts| && ts[s] <= t < ts[s + 1]
    ensures forall j | s < j < |ts| :: t < ts[j]
    decreases |ts|
  {
    if ts[|ts| - 2] <= t then |ts| - 2 else Bracket(ts[..|ts| - 1], t)
  }

  /** Reference selection, without a search: skip before the first and from
      the last timestamp on, otherwise the bracketing pair and the fraction
      of the way from one to the other. */
  function ReferenceStep(ts: seq<real>, t: real): (k: KeyStep)
    requires |ts| >= 2
    ensures k.Between? <==> ts[0] <= t < ts[|ts| - 1]
    ensures k.Between? ==> k.start + 1 < |ts| && ts[k.start] <= t < ts[k.start + 1]
    ensures k.Between? ==> 0.0 <= k.lerp < 1.0
    ensures !k.Between? ==> (k == NotStarted <==> t < ts[0])
  {
    if t < ts[0] then NotStarted
    else if t >= ts[|ts| - 1] then Ended
    else
      var s := Bracket(ts, t);
      var l := (t - ts[s]) / (ts[s + 1] - ts[s]);
      assert 0.0 <= l < 1.0 by { FractionInUnit(t - ts[s], ts[s + 1] - ts[s]); }
      Between(s, l)
  }

  lemma FractionInUnit(a: real, b: real)
    requires 0.0 <= a < b
    ensures 0.0 <= a / b < 1.0
  {
  }

  /** On strictly increasing timestamps, the search-based selection agrees
      with the reference, whichever index the search reports. */
  lemma SelectMatchesReference(ts: seq<real>, t: real, r: SearchResult)
    requires |ts| >= 2 && StrictlyIncreasing(ts) && SearchContract(ts, t, r)
    ensures SelectKeyframe(ts, t, r) == ReferenceStep(ts, t)
  {
    var last := |ts| - 1;
    match r
    case Found(n) =>
      if n < last {
        assert ts[0] <= t < ts[last] by { assert 0 < n ==> ts[0] < ts[n]; }
        var s := Bracket(ts, t);
        assert s == n;
      }
    case NotFound(n) =>
      if n == 0 {
        assert t < ts[0];
      } else if n <= last {
        var s := Bracket(ts, t);
        assert s == n - 1;
      } else {
        assert ts[last] < t;
      }
  }

  /** Keyframe selection for one curve at sampling time `t`: a single
      keyframe is used at any time; otherwise binary search and the `match`.
      An empty curve is never started. */
  method KeyframeStep(ts: seq<real>, t: real) returns (k: KeyStep)
    ensures |ts| == 1 <==> k == SingleKey
    ensures |ts| == 0 ==> k == NotStarted
    ensures (k.Between? || k.ZeroWidth?) ==> k.start + 1 < |ts|
    ensures |ts| >= 2 && StrictlyIncreasing(ts) ==> k == ReferenceStep(ts, t)
  {
    if |ts| == 1 {
      return SingleKey;
    }
    var r := BinarySearch(ts, t);
    k := SelectKeyframe(ts, t, r);
    if |ts| >= 2 && StrictlyIncreasing(ts) {
      SelectMatchesReference(ts, t, r);
    }
  }

  /** Each weight moved toward the matching target value by `l`:
      `w * (1 - l) + target * l`. */
  function Blend(current: seq<real>, target: seq<real>, l: real): (r: seq<real>)
    requires |current| == |target|
    ensures |r| == |current|
  {
    seq(|current|, i requires 0 <= i < |current| => current[i] * (1.0 - l) + target[i] * l)
  }

  /** Blending by 0 keeps the weights, by 1 replaces them, and in between
      each weight stays between its old value and its target. */
  lemma BlendBounds(current: seq<real>, target: seq<real>, l: real)
    requires |current| == |target|
    ensures l == 0.0 ==> Blend(current, target, l) == current
    ensures l == 1.0 ==> Blend(current, target, l) == target
    ensures 0.0 <= l <= 1.0 ==> forall i | 0 <= i < |current| ::
      (current[i] <= Blend(current, target, l)[i] <= target[i]) ||
      (target[i] <= Blend(current, target, l)[i] <= current[i])
  {
    if 0.0 <= l <= 1.0 {
      forall i | 0 <= i < |current|
        ensures (current[i] <= Blend(current, target, l)[i] <= target[i]) ||
                (target[i] <= Blend(current, target, l)[i] <= current[i])
      {
        var b := Blend(current, target, l)[i];
        var d := target[i] - current[i];
        assert b == current[i] + d * l;
        ScaledBetween(d, l);
        if d >= 0.0 {
          assert current[i] <= b <= target[i];
        } else {
          assert target[i] <= b <= current[i];
        }
      }
    }
  }

  lemma ScaledBetween(d: real, l: real)
    requires 0.0 <= l <= 1.0
    ensures (0.0 <= d * l <= d) || (d <= d * l <= 0.0)
  {
    if d >= 0.0 {
      assert d - d * l == d * (1.0 - l);
    } else {
      assert d * l - d == -d * (1.0 - l);
    }
  }

  /** Keyframe `key` of a flat weight list with `n` targets per keyframe:
      the values `[n * key, n * (key + 1))`. */
  function KeyBlock(keyframes: seq<real>, n: nat, key: nat): (block: seq<real>)
    requires n * (key + 1) <= |keyframes|
    ensures |block| == n
    ensures forall i | 0 <= i < n :: block[i] == keyframes[n * key + i]
  {
    assert n * (key + 1) == n * key + n;
    keyframes[n * key .. n * (key + 1)]
  }

  /** `lerp_morph_weights`: every weight moves toward keyframe `keyIndex`
      by `keyLerp`. The keyframe block must lie inside `keyframes`, as the
      slice indexing of the engine demands. */
  method LerpMorphWeights(weights: array<real>, keyLerp: real, keyframes: seq<real>, keyIndex: nat)
    requires weights.Length * (keyIndex + 1) <= |keyframes|
    modifies weights
    ensures weights[..] == Blend(old(weights[..]), KeyBlock(keyframes, weights.Length, keyIndex), keyLerp)
  {
    var targetCount := weights.Length;
    var block := KeyBlock(keyframes, targetCount, keyIndex);
    ghost var before := weights[..];
    var i := 0;
    while i < targetCount
      invariant 0 <= i <= targetCount
      invariant forall j | 0 <= j < i :: weights[j] == before[j] * (1.0 - keyLerp) + block[j] * keyLerp
      invariant forall j | i <= j < targetCount :: weights[j] == before[j]
    {
      var minusLerp := 1.0 - keyLerp;
      weights[i] := weights[i] * minusLerp + block[i] * keyLerp;
      i := i + 1;
    }
    ghost var blended := Blend(before, block, keyLerp);
    assert forall j | 0 <= j < targetCount :: weights[j] == blended[j];
    assert weights[..] == blended;
  }

  /** The morph-weight update `apply_animation` makes for a curve bracketed
      by keyframes `step` and `step + 1`, as written: it blends toward
      keyframe `step` by the animation weight; `lerp` is not used, so the
      result is the intended update's at the start of the interval,
      whatever the local factor. The source itself reads only block `step`
      (lib.rs:654); the requirement of a block `step + 1` follows from one
      timestamp per keyframe (lib.rs:51) and `step < |timestamps| - 1` at a
      bracketed time, and lets the intended update share the definition. */
  function MorphStepAsWritten(current: seq<real>, keyframes: seq<real>, step: nat, lerp: real, weight: real)
    : (r: seq<real>)
    requires |current| * (step + 2) <= |keyframes|
    ensures |r| == |current|
    ensures r == MorphStep(current, keyframes, step, 0.0, weight)
  {
    var n := |current|;
    assert n * (step + 1) <= n * (step + 2);
    BlendBounds(KeyBlock(keyframes, n, step), KeyBlock(keyframes, n, step + 1), 0.0);
    Blend(current, KeyBlock(keyframes, n, step), weight)
  }

  /** The same update as for translation and scale: interpolate between
      keyframes `step` and `step + 1` by `lerp`, then blend the result in by
      the animation weight. */
  function MorphStep(current: seq<real>, keyframes: seq<real>, step: nat, lerp: real, weight: real)
    : (r: seq<real>)
    requires |current| * (step + 2) <= |keyframes|
    ensures |r| == |current|
    ensures weight == 0.0 ==> r == current
  {
    var n := |current|;
    assert n * (step + 1) <= n * (step + 2);
    BlendBounds(current, Blend(KeyBlock(keyframes, n, step), KeyBlock(keyframes, n, step + 1), lerp), 0.0);
    Blend(current, Blend(KeyBlock(keyframes, n, step), KeyBlock(keyframes, n, step + 1), lerp), weight)
  }

  /** As written, halfway between a keyframe of weight 0 and one of weight 1
      at full animation weight, the morph weight is 0 instead of 0.5. */
  lemma MorphStepAsWrittenIgnoresLerp()
    ensures MorphStepAsWritten([0.0], [0.0, 1.0], 0, 0.5, 1.0) == [0.0]
    ensures MorphStep([0.0], [0.0, 1.0], 0, 0.5, 1.0) == [0.5]
  {
    assert KeyBlock([0.0, 1.0], 1, 0) == [0.0];
    assert KeyBlock([0.0, 1.0], 1, 1) == [1.0];
  }

  /** As written, the morph weights jump when the sampling time passes a
      keyframe: the end of one interval and the start of the next differ. */
  lemma MorphStepAsWrittenJumps()
    ensures MorphStepAsWritten([0.0], [0.0, 1.0, 1.0], 0, 1.0, 1.0) == [0.0]
    ensures MorphStepAsWritten([0.0], [0.0, 1.0, 1.0], 1, 0.0, 1.0) == [1.0]
  {
    assert KeyBlock([0.0, 1.0, 1.0], 1, 0) == [0.0];
    assert KeyBlock([0.0, 1.0, 1.0], 1, 1) == [1.0];
  }

  /** The intended update is continuous across keyframes: the end of one
      interval meets the start of the next. */
  lemma MorphStepContinuous(current: seq<real>, keyframes: seq<real>, step: nat, weight: real)
    requires |current| * (step + 3) <= |keyframes|
    ensures MorphStep(current, keyframes, step, 1.0, weight) == MorphStep(current, keyframes, step + 1, 0.0, weight)
  {
    var n := |current|;
    assert n * (step + 2) <= n * (step + 3);
    BlendBounds(KeyBlock(keyframes, n, step), KeyBlock(keyframes, n, step + 1), 1.0);
    BlendBounds(KeyBlock(keyframes, n, step + 1), KeyBlock(keyframes, n, step + 2), 0.0);
  }

  /** At full animation weight the intended update ignores the current
      weights and lands exactly on the interpolated keyframe values. */
  lemma MorphStepFullWeight(current: seq<real>, keyframes: seq<real>, step: nat, lerp: real)
    requires |current| * (step + 2) <= |keyframes|
    ensures MorphStep(current, keyframes, step, lerp, 1.0) ==
      Blend(KeyBlock(keyframes, |current|, step), KeyBlock(keyframes, |current|, step + 1), lerp)
  {
    var n := |current|;
    assert n * (step + 1) <= n * (step + 2);
    BlendBounds(current, Blend(KeyBlock(keyframes, n, step), KeyBlock(keyframes, n, step + 1), lerp), 1.0);
  }
}
