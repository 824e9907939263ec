/**
  The decision rules of the service's exposure adaptation, as functions of the
  measured frame statistics and the current control values: the smoothed
  metrics, the normal/under/over classification, the detection stride, the
  software enhancement, and the targets of the EV, gain and shutter steppers.
*/
module Exposure {
  import opened Wrappers
  import opened Settings

  /** `state.exposure_state`: "unknown" until the first frame, "off" when adaptation is disabled. */
  datatype ExposureState = Unknown | Off | Normal | Under | Over

  function RMin(a: real, b: real): real { if b < a then b else a }
  function RMax(a: real, b: real): real { if b > a then b else a }
  function Abs(x: real): real { if x < 0.0 then -x else x }

  /** `(1 - alpha) * prev + alpha * sample`: the EMA update, also used to blend the enhancement toward its target. */
  function Ema(prev: real, sample: real, alpha: real): real {
    (1.0 - alpha) * prev + alpha * sample
  }

  /** With alpha in [0, 1] the average lands between the old value and the sample: it never overshoots. */
  lemma EmaBetween(prev: real, sample: real, alpha: real)
    requires 0.0 <= alpha <= 1.0
    ensures RMin(prev, sample) <= Ema(prev, sample, alpha) <= RMax(prev, sample)
  {
    var d := sample - prev;
    assert Ema(prev, sample, alpha) == prev + alpha * d;
    if d >= 0.0 {
      assert 0.0 <= alpha * d <= d;
    } else {
      assert d <= alpha * d <= 0.0;
    }
  }

  /** So averages of values within [lo, hi] stay within [lo, hi]: clip fractions in [0, 1], means in [0, 255]. */
  lemma EmaInRange(prev: real, sample: real, alpha: real, lo: real, hi: real)
    requires 0.0 <= alpha <= 1.0 && lo <= prev <= hi && lo <= sample <= hi
    ensures lo <= Ema(prev, sample, alpha) <= hi
  {
    EmaBetween(prev, sample, alpha);
  }

  /** The smoothed frame statistics: mean grey level and the fractions of near-black and near-white pixels. */
  datatype Metrics = Metrics(mean: real, lowClip: real, highClip: real)

  /** Updates all three averages with the same smoothing factor. */
  function SmoothMetrics(prev: Metrics, sample: Metrics, alpha: real): Metrics {
    Metrics(Ema(prev.mean, sample.mean, alpha), Ema(prev.lowClip, sample.lowClip, alpha), Ema(prev.highClip, sample.highClip, alpha))
  }

  /** Mean in [0, 255], clip fractions in [0, 1]. */
  predicate MetricsInRange(m: Metrics) {
    0.0 <= m.mean <= 255.0 && 0.0 <= m.lowClip <= 1.0 && 0.0 <= m.highClip <= 1.0
  }

  lemma SmoothMetricsInRange(prev: Metrics, sample: Metrics, alpha: real)
    requires 0.0 <= alpha <= 1.0 && MetricsInRange(prev) && MetricsInRange(sample)
    ensures MetricsInRange(SmoothMetrics(prev, sample, alpha))
  {
    EmaInRange(prev.mean, sample.mean, alpha, 0.0, 255.0);
    EmaInRange(prev.lowClip, sample.lowClip, alpha, 0.0, 1.0);
    EmaInRange(prev.highClip, sample.highClip, alpha, 0.0, 1.0);
  }

  /**
    The classification of the smoothed metrics. Over-exposure is tested first;
    under-exposure uses the higher exit threshold when the previous state was
    "under" (hysteresis) and the entry threshold otherwise.
  */
  function Classify(prev: ExposureState, m: Metrics, c: Config): (s: ExposureState)
    ensures s == Normal || s == Under || s == Over
  {
    var under := if prev == Under then m.lowClip > c.expLowClipFrac || m.mean < c.expDarkMeanExit
                 else m.lowClip > c.expLowClipFrac || m.mean < c.expDarkMean;
    var over := m.highClip > c.expHighClipFrac || m.mean > c.expBrightMean;
    if over then Over else if under then Under else Normal
  }

  /** "over" wins whenever the bright or high-clip test fires, and only then. */
  lemma OverTakesPriority(prev: ExposureState, m: Metrics, c: Config)
    ensures Classify(prev, m, c) == Over <==> m.highClip > c.expHighClipFrac || m.mean > c.expBrightMean
  {
  }

  /** Coming from "under", the scene stays "under" until the mean reaches the exit threshold and clipping stops. */
  lemma UnderExitsAtExitThreshold(m: Metrics, c: Config)
    requires !(m.highClip > c.expHighClipFrac || m.mean > c.expBrightMean)
    ensures Classify(Under, m, c) == Under <==> m.lowClip > c.expLowClipFrac || m.mean < c.expDarkMeanExit
  {
  }

  /** From any other state, "under" is entered only below the (lower) entry threshold or with clipping. */
  lemma UnderEntersAtDarkThreshold(prev: ExposureState, m: Metrics, c: Config)
    requires prev != Under
    requires !(m.highClip > c.expHighClipFrac || m.mean > c.expBrightMean)
    ensures Classify(prev, m, c) == Under <==> m.lowClip > c.expLowClipFrac || m.mean < c.expDarkMean
  {
  }

  /** The states produced by classifying a run of smoothed metrics one frame after another. */
  function ClassifyRun(prev: ExposureState, ms: seq<Metrics>, c: Config): (states: seq<ExposureState>)
    ensures |states| == |ms|
    decreases |ms|
  {
    if ms == [] then []
    else
      var s := Classify(prev, ms[0], c);
      [s] + ClassifyRun(s, ms[1..], c)
  }

  /** Metrics inside the hysteresis band: between the entry and exit thresholds, with no clipping. */
  predicate InBand(m: Metrics, c: Config) {
    c.expDarkMean <= m.mean < c.expDarkMeanExit && m.mean <= c.expBrightMean
    && m.lowClip <= c.expLowClipFrac && m.highClip <= c.expHighClipFrac
  }

  /** Inside the band the state never flips: "under" stays "under" and "normal" stays "normal". */
  lemma {:induction false} BandKeepsState(prev: ExposureState, ms: seq<Metrics>, c: Config)
    requires prev == Under || prev == Normal
    requires forall k :: 0 <= k < |ms| ==> InBand(ms[k], c)
    ensures forall k :: 0 <= k < |ms| ==> ClassifyRun(prev, ms, c)[k] == prev
  {
    if ms != [] {
      assert InBand(ms[0], c);
      assert Classify(prev, ms[0], c) == prev;
      BandKeepsState(prev, ms[1..], c);
      var states := ClassifyRun(prev, ms, c);
      assert states == [prev] + ClassifyRun(prev, ms[1..], c);
      forall k | 1 <= k < |ms|
        ensures states[k] == prev
      {
        assert ms[1..][k - 1] == ms[k];
      }
    }
  }

  /** With entry 40 and exit 50, smoothed means 30, 45, 55 give under, under, normal. */
  lemma HysteresisExample(c: Config)
    requires c.expDarkMean == 40.0 && c.expDarkMeanExit == 50.0 && c.expBrightMean == 200.0
    requires c.expLowClipFrac == 0.05 && c.expHighClipFrac == 0.05
    ensures ClassifyRun(Normal, [Metrics(30.0, 0.0, 0.0), Metrics(45.0, 0.0, 0.0), Metrics(55.0, 0.0, 0.0)], c)
      == [Under, Under, Normal]
  {
    var ms := [Metrics(30.0, 0.0, 0.0), Metrics(45.0, 0.0, 0.0), Metrics(55.0, 0.0, 0.0)];
    assert ms[1..] == [Metrics(45.0, 0.0, 0.0), Metrics(55.0, 0.0, 0.0)];
    assert ms[1..][1..] == [Metrics(55.0, 0.0, 0.0)];
    assert Classify(Normal, ms[0], c) == Under;
    assert Classify(Under, ms[1], c) == Under;
    assert Classify(Under, ms[2], c) == Normal;
    assert ClassifyRun(Under, ms[1..][1..], c) == [Normal];
    assert ClassifyRun(Under, ms[1..], c) == [Under, Normal];
  }

  /** The detection stride: slowed to `int(max(1, base * scale))` while under- or over-exposed, the base stride otherwise. */
  function AdaptedStride(s: ExposureState, base: int, scale: real): (stride: int)
    requires base >= 1
    ensures stride >= 1
    ensures s != Under && s != Over ==> stride == base
  {
    if s == Under || s == Over then RMax(1.0, base as real * scale).Floor else base
  }

  /** A scale of at least 1 never makes detection more frequent. */
  lemma StrideNotFasterWhenScaled(s: ExposureState, base: int, scale: real)
    requires base >= 1 && scale >= 1.0
    ensures AdaptedStride(s, base, scale) >= base
  {
    if s == Under || s == Over {
      var b := base as real;
      assert b * scale - b == b * (scale - 1.0);
      assert b * (scale - 1.0) >= 0.0;
      assert RMax(1.0, b * scale) >= b;
    }
  }

  /** The contrast/brightness applied to frames, the target it blends toward and the hold deadline. */
  datatype Enhancement = Enhancement(alpha: real, beta: real, targetAlpha: real, targetBeta: real, holdUntil: real)

  /** The enhancement before the first frame: identity, no hold. */
  const InitialEnhancement := Enhancement(1.0, 0.0, 1.0, 0.0, 0.0)

  /** Whether the state selects its own enhancement target this frame. */
  predicate Enhancing(s: ExposureState, c: Config) {
    (s == Under && c.enhanceOnUnder) || (s == Over && c.enhanceOnOver)
  }

  /**
    One frame of enhancement: an enabled under/over state sets its target and
    extends the hold; otherwise the previous target is kept until the hold
    expires and the identity (1, 0) is used after. Alpha and beta then blend
    toward the target.
  */
  function EnhanceStep(e: Enhancement, s: ExposureState, now: real, c: Config): (e': Enhancement)
    ensures e'.holdUntil == (if Enhancing(s, c) then RMax(e.holdUntil, now + c.enhanceHoldSec) else e.holdUntil)
  {
    var (ta, tb, hold) :=
      if s == Under && c.enhanceOnUnder then (c.enhanceUnderAlpha, c.enhanceUnderBeta, RMax(e.holdUntil, now + c.enhanceHoldSec))
      else if s == Over && c.enhanceOnOver then (c.enhanceOverAlpha, c.enhanceOverBeta, RMax(e.holdUntil, now + c.enhanceHoldSec))
      else if now < e.holdUntil then (e.targetAlpha, e.targetBeta, e.holdUntil)
      else (1.0, 0.0, e.holdUntil);
    Enhancement(Ema(e.alpha, ta, c.enhanceBlendAlpha), Ema(e.beta, tb, c.enhanceBlendAlpha), ta, tb, hold)
  }

  /** The hold deadline never moves backwards. */
  lemma HoldNeverDecreases(e: Enhancement, s: ExposureState, now: real, c: Config)
    ensures EnhanceStep(e, s, now, c).holdUntil >= e.holdUntil
  {
  }

  /** Outside an enhancing state the target is kept before the deadline and reset to (1, 0) from it on. */
  lemma TargetAfterEnhancing(e: Enhancement, s: ExposureState, now: real, c: Config)
    requires !Enhancing(s, c)
    ensures var e' := EnhanceStep(e, s, now, c);
      if now < e.holdUntil then e'.targetAlpha == e.targetAlpha && e'.targetBeta == e.targetBeta
      else e'.targetAlpha == 1.0 && e'.targetBeta == 0.0
  {
  }

  /** With a blend factor in [0, 1], alpha and beta each land between their old value and the target. */
  lemma EnhanceNoOvershoot(e: Enhancement, s: ExposureState, now: real, c: Config)
    requires 0.0 <= c.enhanceBlendAlpha <= 1.0
    ensures var e' := EnhanceStep(e, s, now, c);
      && RMin(e.alpha, e'.targetAlpha) <= e'.alpha <= RMax(e.alpha, e'.targetAlpha)
      && RMin(e.beta, e'.targetBeta) <= e'.beta <= RMax(e.beta, e'.targetBeta)
  {
    var e' := EnhanceStep(e, s, now, c);
    EmaBetween(e.alpha, e'.targetAlpha, c.enhanceBlendAlpha);
    EmaBetween(e.beta, e'.targetBeta, c.enhanceBlendAlpha);
  }

  function Power(x: real, n: nat): real {
    if n == 0 then 1.0 else x * Power(x, n - 1)
  }

  /** `n` frames of blending toward a fixed target. */
  function BlendTimes(cur: real, target: real, blend: real, n: nat): real {
    if n == 0 then cur else Ema(BlendTimes(cur, target, blend, n - 1), target, blend)
  }

  /** After `n` frames the remaining gap is the initial one times `(1 - blend)^n`. */
  lemma {:induction false} BlendGap(cur: real, target: real, blend: real, n: nat)
    ensures BlendTimes(cur, target, blend, n) - target == Power(1.0 - blend, n) * (cur - target)
  {
    if n > 0 {
      BlendGap(cur, target, blend, n - 1);
      var prev := BlendTimes(cur, target, blend, n - 1);
      assert Ema(prev, target, blend) - target == (1.0 - blend) * (prev - target);
    }
  }

  /** Repeated blending with a factor in [0, 1] never moves away from the target. */
  lemma {:induction false} BlendApproaches(cur: real, target: real, blend: real, n: nat)
    requires 0.0 <= blend <= 1.0
    ensures Abs(BlendTimes(cur, target, blend, n + 1) - target) <= Abs(BlendTimes(cur, target, blend, n) - target)
  {
    var prev := BlendTimes(cur, target, blend, n);
    EmaBetween(prev, target, blend);
  }

  /** Moves `v` toward `rest` by at most `step`, stopping at `rest`: the "normal" rule of the EV and gain steppers. */
  function StepToward(v: real, rest: real, step: real): real {
    if v > rest then RMax(rest, v - step)
    else if v < rest then RMin(rest, v + step)
    else v
  }

  /** The step never crosses the resting value and closes the gap by `step` or entirely. */
  lemma StepTowardNoCrossing(v: real, rest: real, step: real)
    requires step >= 0.0
    ensures var r := StepToward(v, rest, step);
      && (v >= rest ==> rest <= r <= v)
      && (v <= rest ==> v <= r <= rest)
      && Abs(r - rest) == RMax(0.0, Abs(v - rest) - step)
  {
  }

  /** The EV the stepper asks the camera for; None for the states it ignores ("off", "unknown"). */
  function EvTarget(s: ExposureState, ev: real, c: Config): Option<real> {
    match s
    case Under => Some(RMin(c.evMax, ev + c.evStep))
    case Over => Some(RMax(c.evMin, ev - c.evStep))
    case Normal => Some(StepToward(ev, 0.0, c.evReturnStep))
    case _ => None
  }

  /** From a bias within [evMin, evMax], every target stays within it; "normal" moves toward 0 without crossing it. */
  lemma EvTargetInRange(s: ExposureState, ev: real, c: Config)
    requires Sane(c) && c.evMin <= ev <= c.evMax
    ensures EvTarget(s, ev, c).Some? ==> c.evMin <= EvTarget(s, ev, c).value <= c.evMax
    ensures s == Normal ==> EvTarget(s, ev, c) == Some(StepToward(ev, 0.0, c.evReturnStep))
  {
    StepTowardNoCrossing(ev, 0.0, c.evReturnStep);
  }

  /** The gain the stepper asks the camera for; "normal" returns toward 1.0, not toward `gainMin`. */
  function GainTarget(s: ExposureState, g: real, c: Config): Option<real> {
    match s
    case Under => Some(RMin(c.gainMax, g + c.gainStep))
    case Over => Some(RMax(c.gainMin, g - c.gainStep))
    case Normal => Some(StepToward(g, 1.0, c.gainReturnStep))
    case _ => None
  }

  /** From a gain within [gainMin, gainMax], every target stays within it; "normal" moves toward 1.0 without crossing it. */
  lemma GainTargetInRange(s: ExposureState, g: real, c: Config)
    requires Sane(c) && c.gainMin <= g <= c.gainMax
    ensures GainTarget(s, g, c).Some? ==> c.gainMin <= GainTarget(s, g, c).value <= c.gainMax
    ensures s == Normal ==> GainTarget(s, g, c) == Some(StepToward(g, 1.0, c.gainReturnStep))
  {
    StepTowardNoCrossing(g, 1.0, c.gainReturnStep);
  }

  /** A proposed value is applied only when it differs from the current one by at least 1e-6. */
  predicate Significant(proposed: real, current: real) {
    !(Abs(proposed - current) < 0.000001)
  }

  /** The shutter time asked for when under-exposed: one step longer, capped at the maximum. */
  function ShutterUnderTarget(cur: int, c: Config): int {
    IMin(c.shutterMaxUs, cur + c.shutterStepUs)
  }

  /** The shutter time asked for when normal or over-exposed (and above base): one return step shorter, floored at base. */
  function ShutterReturnTarget(cur: int, c: Config): int {
    IMax(c.shutterBaseUs, cur - c.shutterReturnStepUs)
  }

  /** Both targets keep a shutter time within [base, max] there. */
  lemma ShutterTargetsInRange(cur: int, c: Config)
    requires Sane(c) && c.shutterBaseUs <= cur <= c.shutterMaxUs
    ensures c.shutterBaseUs <= ShutterUnderTarget(cur, c) <= c.shutterMaxUs
    ensures c.shutterBaseUs <= ShutterReturnTarget(cur, c) <= c.shutterMaxUs
  {
  }

  /** The steppers' own timing test: they proceed unless less than `interval` has passed since `last`. */
  predicate IntervalElapsed(last: real, now: real, interval: real) {
    !(now - last < interval)
  }

  /** The failsafe's timing test as written: never updated, or the interval has passed. */
  predicate DueAsWritten(last: real, now: real, interval: real) {
    last == 0.0 || now - last >= interval
  }

  /** The camera controls and when each was last changed. */
  datatype Controls = Controls(evBias: real, evLastUpdate: real, gainValue: real, gainLastUpdate: real,
                               shutterUs: int, shutterLastUpdate: real)

  /** Whether the EV stepper, once due, would change the bias. */
  predicate EvMoves(s: ExposureState, ev: real, c: Config) {
    var t := EvTarget(s, ev, c); t.Some? && Significant(t.value, ev)
  }

  /** Whether the gain stepper, once due, would change the gain. */
  predicate GainMoves(s: ExposureState, g: real, c: Config) {
    var t := GainTarget(s, g, c); t.Some? && Significant(t.value, g)
  }

  /** Whether the shutter stepper, once due, would ask for a shutter time. */
  predicate ShutterMoves(s: ExposureState, cur: int, c: Config) {
    if s == Under then ShutterUnderTarget(cur, c) != cur
    else if s == Normal || s == Over then cur > c.shutterBaseUs
    else false
  }

  /** Whether `_maybe_adjust_ev` would call `set_ev` now. */
  predicate EvCalls(s: ExposureState, k: Controls, now: real, c: Config, caps: Capabilities) {
    c.evAdaptEnable && caps.supportsEv && IntervalElapsed(k.evLastUpdate, now, c.evUpdateIntervalSec) && EvMoves(s, k.evBias, c)
  }

  /** Whether `_maybe_adjust_gain` would call `set_gain` now. */
  predicate GainCalls(s: ExposureState, k: Controls, now: real, c: Config, caps: Capabilities) {
    c.gainAdaptEnable && caps.supportsGain && IntervalElapsed(k.gainLastUpdate, now, c.gainUpdateIntervalSec) && GainMoves(s, k.gainValue, c)
  }

  /** Whether `_maybe_adjust_shutter` would call `set_shutter` now. */
  predicate ShutterCalls(s: ExposureState, k: Controls, now: real, c: Config, caps: Capabilities) {
    c.shutterAdaptEnable && caps.supportsShutter && IntervalElapsed(k.shutterLastUpdate, now, c.shutterUpdateIntervalSec) && ShutterMoves(s, k.shutterUs, c)
  }

  /**
    The out-of-band failsafe as written: in an under/over state it fires when
    some supported control was never updated or its interval has elapsed,
    whether or not that control's stepper is enabled or can still move.
  */
  predicate FailsafeFiresAsWritten(s: ExposureState, k: Controls, now: real, c: Config, caps: Capabilities) {
    && (s == Under || s == Over)
    && ((DueAsWritten(k.evLastUpdate, now, c.evUpdateIntervalSec) && caps.supportsEv)
        || (DueAsWritten(k.gainLastUpdate, now, c.gainUpdateIntervalSec) && caps.supportsGain)
        || (DueAsWritten(k.shutterLastUpdate, now, c.shutterUpdateIntervalSec) && caps.supportsShutter))
  }

  /** The failsafe corrected: in an under/over state it fires when some stepper would actually call the camera. */
  predicate FailsafeFires(s: ExposureState, k: Controls, now: real, c: Config, caps: Capabilities) {
    (s == Under || s == Over) && (EvCalls(s, k, now, c, caps) || GainCalls(s, k, now, c, caps) || ShutterCalls(s, k, now, c, caps))
  }

  /** The corrected failsafe fires only where the one as written does. */
  lemma FailsafeFiresNarrowsAsWritten(s: ExposureState, k: Controls, now: real, c: Config, caps: Capabilities)
    ensures FailsafeFires(s, k, now, c, caps) ==> FailsafeFiresAsWritten(s, k, now, c, caps)
  {
  }

  /**
    As written, an under-exposed scene with every control at its limit keeps
    the failsafe firing once EV's interval has elapsed (also with EV
    adaptation switched off), although no stepper can change anything; the
    corrected failsafe stays quiet.
  */
  lemma SaturatedControlsKeepFailsafeFiring(k: Controls, now: real, c: Config, caps: Capabilities)
    requires Sane(c) && caps.supportsEv
    requires k.evBias == c.evMax && k.gainValue == c.gainMax && k.shutterUs == c.shutterMaxUs
    requires now - k.evLastUpdate >= c.evUpdateIntervalSec
    ensures FailsafeFiresAsWritten(Under, k, now, c, caps)
    ensures !EvMoves(Under, k.evBias, c) && !GainMoves(Under, k.gainValue, c) && !ShutterMoves(Under, k.shutterUs, c)
    ensures !FailsafeFires(Under, k, now, c, caps)
  {
  }
}
