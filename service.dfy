/**
  `SecurityCamService`: the worker loop's per-frame bookkeeping, performed in
  place on the service's fields. Each step is proved to produce exactly the
  fields the corresponding function of module ServiceSteps describes, and
  the loop keeps the invariant that the controls stay in range and that
  `detect` never runs inside a pause window. Time is passed in (`now`, and
  the local time of day for the schedule), the frame arrives as its measured
  statistics, and the camera driver's capabilities and answers are inputs.
*/
module Service {
  import opened Wrappers
  import opened Settings
  import opened Exposure
  import opened Detector
  import opened Motion
  import opened Schedule
  import opened ServiceSteps

  /** One pass of the worker loop: its clock readings, the camera's behaviour and what the motion detector reports. */
  datatype Tick = Tick(
    now: real,
    timeOfDay: TimeOfDay,
    cameraStarts: bool,
    frame: Option<Metrics>,
    found: seq<Detection>,
    replies: Replies
  )

  /** The loop's own variables between passes, with the service's fields. */
  datatype LoopState = LoopState(fields: Snapshot, next: real, started: bool, frameIdx: nat)

  /**
    One pass of `_run`'s loop: it waits until the frame deadline, moves the
    deadline on, starts the camera once, skips a pass without a frame, and
    otherwise processes the frame with the schedule's verdict for its time of
    day and advances the frame counter.
  */
  function Pass(l: LoopState, t: Tick, strideBase: int, interval: real, windows: seq<DailyWindow>,
                cfg: Config, caps: Capabilities): LoopState
  {
    if t.now < l.next then l
    else
      var next := PaceNext(l.next, t.now, interval);
      if !l.started && !t.cameraStarts then l.(next := next)
      else if t.frame.None? then l.(next := next, started := true)
      else
        var armed := ActiveAt(windows, t.timeOfDay);
        LoopState(FrameStep(l.fields, strideBase, t.frame.value, t.now, t.replies, t.found, l.frameIdx, armed, cfg, caps),
                  next, true, l.frameIdx + 1)
  }

  /** The loop's state after the passes `ticks`, in order. */
  function Passes(l: LoopState, ticks: seq<Tick>, strideBase: int, interval: real, windows: seq<DailyWindow>,
                  cfg: Config, caps: Capabilities): LoopState
    decreases |ticks|
  {
    if ticks == [] then l
    else Pass(Passes(l, ticks[..|ticks| - 1], strideBase, interval, windows, cfg, caps), ticks[|ticks| - 1],
              strideBase, interval, windows, cfg, caps)
  }

  /**
    A pass processes a frame exactly when its deadline has come, the camera
    has started or starts now, and the camera returns a frame; then the frame
    is counted once and the public state shows the schedule's verdict.
  */
  lemma PassProcessesDueFrames(l: LoopState, t: Tick, strideBase: int, interval: real, windows: seq<DailyWindow>,
                               cfg: Config, caps: Capabilities)
    ensures var r := Pass(l, t, strideBase, interval, windows, cfg, caps);
      && (r.frameIdx == l.frameIdx + 1 <==> !(t.now < l.next) && (l.started || t.cameraStarts) && t.frame.Some?)
      && (r.frameIdx == l.frameIdx || r.frameIdx == l.frameIdx + 1)
      && (r.frameIdx == l.frameIdx ==> r.fields == l.fields)
      && (r.frameIdx == l.frameIdx + 1 ==>
            r.fields.state.totalFrames == l.fields.state.totalFrames + 1
            && r.fields.state.armed == ActiveAt(windows, t.timeOfDay))
      && (l.started ==> r.started)
  {
    if !(t.now < l.next) && (l.started || t.cameraStarts) && t.frame.Some? {
      FrameStepMirrors(l.fields, strideBase, t.frame.value, t.now, t.replies, t.found, l.frameIdx,
                       ActiveAt(windows, t.timeOfDay), cfg, caps);
    }
  }

  /** Over any run of passes, the frame counter and the public frame count advance together. */
  lemma {:induction false} PassesCountFrames(l: LoopState, ticks: seq<Tick>, strideBase: int, interval: real,
                                             windows: seq<DailyWindow>, cfg: Config, caps: Capabilities)
    ensures var r := Passes(l, ticks, strideBase, interval, windows, cfg, caps);
      && l.frameIdx <= r.frameIdx <= l.frameIdx + |ticks|
      && r.fields.state.totalFrames == l.fields.state.totalFrames + (r.frameIdx - l.frameIdx)
    decreases |ticks|
  {
    if ticks != [] {
      PassesCountFrames(l, ticks[..|ticks| - 1], strideBase, interval, windows, cfg, caps);
      PassProcessesDueFrames(Passes(l, ticks[..|ticks| - 1], strideBase, interval, windows, cfg, caps), ticks[|ticks| - 1],
                             strideBase, interval, windows, cfg, caps);
    }
  }

  class SecurityCamService {
    const cfg: Config
    const caps: Capabilities
    const detector: MotionDetector
    const schedule: DailySchedule
    const strideBase: int
    var strideDyn: int
    var metrics: Metrics
    var enh: Enhancement
    var evBias: real
    var evLastUpdate: real
    var gainValue: real
    var gainLastUpdate: real
    var shutterUs: int
    var shutterLastUpdate: real
    var manualExposure: bool
    var adjustLastTs: real
    var adjustPauseUntil: real
    var seedAtResume: bool
    var lastFrameTs: real
    var state: ServiceState
    var cameraLog: seq<CameraCall>
    /** For each `detect` call: the time it was made and the pause deadline then in force. */
    ghost var detectTimes: seq<(real, real)>

    /** The fields a frame changes, with the detector's state. */
    function Fields(): Snapshot
      reads this, detector
    {
      Snapshot(strideDyn, metrics, enh, evBias, evLastUpdate, gainValue, gainLastUpdate, shutterUs, shutterLastUpdate,
               manualExposure, adjustLastTs, adjustPauseUntil, seedAtResume, lastFrameTs, state, cameraLog,
               detector.hasBaseline, detector.calls)
    }

    /**
      The base stride is positive; with sane settings the controls stay within
      their limits and the averages within their ranges; and no `detect` call
      was ever made inside a pause window.
    */
    ghost predicate Valid()
      reads this, detector
    {
      && strideBase >= 1
      && InRange(Fields(), cfg)
      && forall k :: 0 <= k < |detectTimes| ==> detectTimes[k].1 <= detectTimes[k].0
    }

    /** `__init__`: the schedule parsed from `activeWindows`, a fresh detector, and every control at its starting value. */
    constructor (cfg: Config, caps: Capabilities, activeWindows: string)
      ensures Valid()
      ensures this.cfg == cfg && this.caps == caps
      ensures strideBase == IMax(1, cfg.detectEveryNFrames)
      ensures Fields() == Snapshot(strideBase, Metrics(0.0, 0.0, 0.0), InitialEnhancement, 0.0, 0.0, cfg.gainMin, 0.0,
                                   cfg.shutterBaseUs, 0.0, false, 0.0, 0.0, false, 0.0,
                                   DefaultState.(evBias := 0.0, gain := cfg.gainMin, shutterUs := cfg.shutterBaseUs), [],
                                   false, [])
      ensures fresh(detector)
      ensures fresh(schedule) && schedule.windows == ParseSpec(activeWindows)
      ensures detectTimes == []
    {
      this.cfg := cfg;
      this.caps := caps;
      detector := new MotionDetector();
      schedule := new DailySchedule(activeWindows);
      strideBase := IMax(1, cfg.detectEveryNFrames);
      strideDyn := IMax(1, cfg.detectEveryNFrames);
      metrics := Metrics(0.0, 0.0, 0.0);
      enh := InitialEnhancement;
      evBias := 0.0;
      evLastUpdate := 0.0;
      gainValue := cfg.gainMin;
      gainLastUpdate := 0.0;
      shutterUs := cfg.shutterBaseUs;
      shutterLastUpdate := 0.0;
      manualExposure := false;
      adjustLastTs := 0.0;
      adjustPauseUntil := 0.0;
      seedAtResume := false;
      lastFrameTs := 0.0;
      state := DefaultState.(evBias := 0.0, gain := cfg.gainMin, shutterUs := cfg.shutterBaseUs);
      cameraLog := [];
      detectTimes := [];
    }

    /** Opening a pause window: detection pauses until `now` plus the pause, the detector is reset and a reseed is owed. */
    method OpenPauseWindow(now: real)
      modifies this, detector
      ensures Fields() == OpenWindow(old(Fields()), now, cfg)
      ensures detectTimes == old(detectTimes)
    {
      adjustPauseUntil := now + cfg.motionAdjustPauseSec;
      detector.Reset();
      seedAtResume := true;
    }

    /** `_maybe_adjust_ev`, with `accepted` the camera's answer to `set_ev`. */
    method MaybeAdjustEv(s: ExposureState, now: real, accepted: bool)
      requires Valid()
      modifies this, detector
      ensures Valid() && detectTimes == old(detectTimes)
      ensures Fields() == EvStep(old(Fields()), s, now, cfg, caps, accepted).fields
    {
      EvStepKeepsRanges(Fields(), s, now, cfg, caps, accepted);
      // The early returns: disabled, unsupported, not due, no target for the state, or a change below 1e-6.
      if EvCalls(s, ControlsOf(Fields()), now, cfg, caps) {
        var ev := EvTarget(s, evBias, cfg).value;
        cameraLog := cameraLog + [SetEv(ev)];
        if accepted {
          evBias := ev;
          evLastUpdate := now;
          OpenPauseWindow(now);
        }
      }
    }

    /** `_maybe_adjust_gain`, with `accepted` the camera's answer to `set_gain`. */
    method MaybeAdjustGain(s: ExposureState, now: real, accepted: bool)
      requires Valid()
      modifies this, detector
      ensures Valid() && detectTimes == old(detectTimes)
      ensures Fields() == GainStep(old(Fields()), s, now, cfg, caps, accepted).fields
    {
      GainStepKeepsRanges(Fields(), s, now, cfg, caps, accepted);
      // The same early returns as the EV stepper.
      if GainCalls(s, ControlsOf(Fields()), now, cfg, caps) {
        var g := GainTarget(s, gainValue, cfg).value;
        cameraLog := cameraLog + [SetGain(g)];
        if accepted {
          gainValue := g;
          gainLastUpdate := now;
          OpenPauseWindow(now);
        }
      }
    }

    /** `_maybe_adjust_shutter`, with the camera's answers to `set_shutter` and `set_auto_exposure(True)`. */
    method MaybeAdjustShutter(s: ExposureState, now: real, accepted: bool, autoAccepted: bool)
      requires Valid()
      modifies this, detector
      ensures Valid() && detectTimes == old(detectTimes)
      ensures Fields() == ShutterStep(old(Fields()), s, now, cfg, caps, accepted, autoAccepted).fields
    {
      ShutterStepKeepsRanges(Fields(), s, now, cfg, caps, accepted, autoAccepted);
      var due := cfg.shutterAdaptEnable && caps.supportsShutter && !(now - shutterLastUpdate < cfg.shutterUpdateIntervalSec);
      if due && (s == Under || s == Normal || s == Over) {
        MoveShutter(s, now, accepted);
        ReenableAutoExposure(s, autoAccepted);
      }
    }

    /** The shutter change of `_maybe_adjust_shutter`, once it is due in a known state. */
    method MoveShutter(s: ExposureState, now: real, accepted: bool)
      modifies this, detector
      ensures Fields() == ShutterMove(old(Fields()), s, now, cfg, accepted).fields
      ensures detectTimes == old(detectTimes)
    {
      var cur := shutterUs;
      // "under" skips a target equal to the current time; "normal"/"over" only require being above base.
      var target := if s == Under then ShutterUnderTarget(cur, cfg) else ShutterReturnTarget(cur, cfg);
      if ShutterMoves(s, cur, cfg) {
        cameraLog := cameraLog + [SetShutter(target)];
        if accepted {
          shutterUs := target;
          manualExposure := true;
          shutterLastUpdate := now;
          OpenPauseWindow(now);
        }
      }
    }

    /** The return to automatic exposure near base at the end of `_maybe_adjust_shutter`. */
    method ReenableAutoExposure(s: ExposureState, autoAccepted: bool)
      modifies this
      ensures Fields() == ReenableAuto(old(Fields()), s, cfg, caps, autoAccepted)
      ensures detectTimes == old(detectTimes)
    {
      if s != Under && IAbs(shutterUs - cfg.shutterBaseUs) <= cfg.shutterReturnStepUs && caps.hasAutoExposure {
        cameraLog := cameraLog + [SetAutoExposure];
        if autoAccepted {
          manualExposure := false;
        }
      }
    }

    /** The adjustment coordinator of `_update_exposure_and_adapt`. */
    method Coordinate(s: ExposureState, now: real) returns (runAdjust: bool)
      requires Valid()
      modifies this, detector
      ensures Valid() && detectTimes == old(detectTimes)
      ensures var d := CoordinateStep(old(Fields()), s, now, cfg, caps);
        Fields() == d.fields && runAdjust == d.runAdjust
    {
      if now - adjustLastTs >= cfg.motionAdjustPeriodSec {
        adjustLastTs := now;
        OpenPauseWindow(now);
        runAdjust := true;
      } else if now < adjustPauseUntil {
        runAdjust := true;
      } else {
        runAdjust := false;
      }
      if !runAdjust && FailsafeFiresAsWritten(s, ControlsOf(Fields()), now, cfg, caps) {
        OpenPauseWindow(now);
        runAdjust := true;
      }
    }

    /** The measuring half of `_update_exposure_and_adapt`: averages, classification, stride and enhancement. */
    method MeasureFrame(sample: Metrics, now: real)
      requires Valid() && MetricsInRange(sample) && cfg.adaptiveSensitivity
      modifies this
      ensures Valid() && detectTimes == old(detectTimes)
      ensures Fields() == Measure(old(Fields()), strideBase, sample, now, cfg)
    {
      if Sane(cfg) {
        SmoothMetricsInRange(metrics, sample, cfg.expEmaAlpha);
      }
      var m := SmoothMetrics(metrics, sample, cfg.expEmaAlpha);
      metrics := m;
      var s := Classify(state.exposureState, m, cfg);
      state := state.(exposureState := s, exposureMean := m.mean, exposureLowClip := m.lowClip, exposureHighClip := m.highClip);
      strideDyn := AdaptedStride(s, strideBase, cfg.adaptDetectStrideScale);
      enh := EnhanceStep(enh, s, now, cfg);
    }

    /** The adjusting half: the coordinator, the steppers it lets run, and the mirror of the controls in the public state. */
    method AdjustFrame(now: real, replies: Replies)
      requires Valid()
      modifies this, detector
      ensures Valid() && detectTimes == old(detectTimes)
      ensures Fields() == Adjust(old(Fields()), now, replies, cfg, caps).fields
    {
      ghost var f1 := Fields();
      AdjustKeepsRanges(f1, now, replies, cfg, caps);
      var s := state.exposureState;
      var runAdjust := Coordinate(s, now);
      if runAdjust {
        MaybeAdjustEv(s, now, replies.evAccepted);
        MaybeAdjustGain(s, now, replies.gainAccepted);
        MaybeAdjustShutter(s, now, replies.shutterAccepted, replies.autoExposureAccepted);
      }
      state := state.(evBias := evBias, gain := gainValue, shutterUs := shutterUs);
    }

    /** `_update_exposure_and_adapt` for a frame with statistics `sample`. */
    method UpdateExposureAndAdapt(sample: Metrics, now: real, replies: Replies)
      requires Valid() && MetricsInRange(sample)
      modifies this, detector
      ensures Valid() && detectTimes == old(detectTimes)
      ensures Fields() == ExposureStep(old(Fields()), strideBase, sample, now, replies, cfg, caps).fields
    {
      if !cfg.adaptiveSensitivity {
        state := state.(exposureState := Off);
        strideDyn := strideBase;
        return;
      }
      MeasureFrame(sample, now);
      AdjustFrame(now, replies);
    }

    /** The detection step of `_run` for frame number `frameIdx`; `found` is what the motion detector reports. */
    method GateDetection(now: real, frameIdx: nat, found: seq<Detection>)
      requires Valid()
      modifies this, detector
      ensures Valid()
      ensures Fields() == GateStep(old(Fields()), now, frameIdx, found, cfg.alertCooldownSec)
      ensures state.totalFrames == old(state.totalFrames) && lastFrameTs == old(lastFrameTs)
      ensures old(detector.calls) <= detector.calls
      ensures old(seedAtResume) ==> DetectCall !in detector.calls[|old(detector.calls)|..]
      ensures detectTimes == old(detectTimes) + (if |detector.calls| > |old(detector.calls)| && detector.calls[|detector.calls| - 1] == DetectCall
                                                 then [(now, adjustPauseUntil)] else [])
    {
      if frameIdx % IMax(1, strideDyn) == 0 {
        var detections: seq<Detection> := [];
        var paused := now < adjustPauseUntil;
        var seededNow := false;
        if seedAtResume && !paused {
          detector.Seed();
          seedAtResume := false;
          seededNow := true;
        }
        if state.armed && !paused && !seededNow {
          detections := detector.Detect(found);
          detectTimes := detectTimes + [(now, adjustPauseUntil)];
        }
        state := AfterDetections(state, detections, now, cfg.alertCooldownSec);
      }
    }

    /**
      The start of a captured frame in `_run`: after a gap longer than the
      idle limit the detector is reset and a reseed is owed; then the frame
      time is recorded and the exposure step runs, which makes no call on the
      detector but resets and leaves an owed reseed owed.
    */
    method BeginFrame(t: Tick, sample: Metrics)
      requires Valid() && MetricsInRange(sample)
      modifies this, detector
      ensures Valid() && detectTimes == old(detectTimes)
      ensures Fields() == BeginStep(old(Fields()), strideBase, sample, t.now, t.replies, cfg, caps)
    {
      if lastFrameTs != 0.0 && t.now - lastFrameTs > cfg.seedAfterIdleSec {
        detector.Reset();
        seedAtResume := true;
      }
      lastFrameTs := t.now;
      UpdateExposureAndAdapt(sample, t.now, t.replies);
    }

    /**
      One captured frame of `_run`: the idle reseed and the exposure step,
      the frame counter, the schedule, the stride mirror and the detection step.
    */
    method ProcessFrame(t: Tick, sample: Metrics, frameIdx: nat)
      requires Valid() && MetricsInRange(sample)
      modifies this, detector
      ensures Valid()
      ensures Fields() == FrameStep(old(Fields()), strideBase, sample, t.now, t.replies, t.found, frameIdx,
                                    schedule.IsActiveNow(t.timeOfDay), cfg, caps)
      ensures state.totalFrames == old(state.totalFrames) + 1 && lastFrameTs == t.now
      ensures state.armed == schedule.IsActiveNow(t.timeOfDay) && state.detectStride == strideDyn
      ensures old(detector.calls) <= detector.calls
      /** The detector runs only while the schedule arms the service; after an idle gap it is reset and does not run on this frame. */
      ensures DetectCall in detector.calls[|old(detector.calls)|..] ==> schedule.IsActiveNow(t.timeOfDay)
      ensures IdleGap(old(Fields()), t.now, cfg) ==>
        ResetCall in detector.calls[|old(detector.calls)|..] && DetectCall !in detector.calls[|old(detector.calls)|..]
    {
      ghost var f := Fields();
      BeginFrame(t, sample);
      ghost var b := Fields();
      state := state.(totalFrames := state.totalFrames + 1, armed := schedule.IsActiveNow(t.timeOfDay),
                      detectStride := strideDyn, hitThreshold := 0.0);
      assert Fields() == b.(state := b.state.(totalFrames := b.state.totalFrames + 1, armed := schedule.IsActiveNow(t.timeOfDay),
                                              detectStride := b.strideDyn, hitThreshold := 0.0));
      GateDetection(t.now, frameIdx, t.found);
      FrameStepMirrors(f, strideBase, sample, t.now, t.replies, t.found, frameIdx, schedule.IsActiveNow(t.timeOfDay), cfg, caps);
      FrameStepDetectsSafely(f, strideBase, sample, t.now, t.replies, t.found, frameIdx, schedule.IsActiveNow(t.timeOfDay), cfg, caps);
    }

    /**
      `_run` over a finite run of loop passes: each pass waits for its frame
      deadline, starts the camera if that has not succeeded yet, skips
      passes without a frame, and otherwise processes the frame and advances
      the frame counter.
    */
    method Run(start: real, ticks: seq<Tick>) returns (frameIdx: nat)
      requires Valid()
      requires forall k :: 0 <= k < |ticks| && ticks[k].frame.Some? ==> MetricsInRange(ticks[k].frame.value)
      modifies this, detector
      ensures Valid()
      ensures var r := Passes(LoopState(old(Fields()), start, false, 0), ticks, strideBase, FrameInterval(cfg.captureFps),
                              schedule.windows, cfg, caps);
        Fields() == r.fields && frameIdx == r.frameIdx
      ensures state.totalFrames == old(state.totalFrames) + frameIdx
    {
      frameIdx := 0;
      var interval := FrameInterval(cfg.captureFps);
      var nextFrameTs := start;
      var started := false;
      ghost var l0 := LoopState(Fields(), start, false, 0);
      for i := 0 to |ticks|
        invariant Valid()
        invariant LoopState(Fields(), nextFrameTs, started, frameIdx) == Passes(l0, ticks[..i], strideBase, interval, schedule.windows, cfg, caps)
      {
        assert ticks[..i + 1][..i] == ticks[..i];
        var t := ticks[i];
        if t.now < nextFrameTs {
          continue;
        }
        nextFrameTs := PaceNext(nextFrameTs, t.now, interval);
        if !started {
          if t.cameraStarts {
            started := true;
          } else {
            continue;
          }
        }
        if t.frame.None? {
          continue;
        }
        ProcessFrame(t, t.frame.value, frameIdx);
        frameIdx := frameIdx + 1;
      }
      assert ticks[..|ticks|] == ticks;
      PassesCountFrames(l0, ticks, strideBase, interval, schedule.windows, cfg, caps);
    }
  }
}
