/**
  The per-frame state transitions of `SecurityCamService` as functions of the
  service's fields: the three camera-control steppers, the adjustment
  coordinator, the whole exposure step, and the report that follows a
  detection tick. The class in module Service performs them in place.
*/
module ServiceSteps {
  import opened Wrappers
  import opened Settings
  import opened Exposure
  import opened Detector
  import opened Motion

  /** The observable state the web interface reads. */
  datatype ServiceState = ServiceState(
    detecting: bool,
    lastDetectionTs: real,
    savedImagesCount: nat,
    totalFrames: nat,
    armed: bool,
    exposureState: ExposureState,
    exposureMean: real,
    exposureLowClip: real,
    exposureHighClip: real,
    detectStride: int,
    hitThreshold: real,
    personCount: nat,
    faceCount: nat,
    lastKinds: seq<string>,
    evBias: real,
    gain: real,
    shutterUs: int
  )

  /** The dataclass defaults. */
  const DefaultState := ServiceState(false, 0.0, 0, 0, true, Unknown, 0.0, 0.0, 0.0, 1, 0.0, 0, 0, [], 0.0, 0.0, 0)

  /** The calls the service makes on the camera driver. */
  datatype CameraCall = SetEv(ev: real) | SetGain(gain: real) | SetShutter(us: int) | SetAutoExposure

  /**
    The service's private fields that change from frame to frame, with its
    public state, the calls it made on the camera, and the motion detector's
    baseline flag and the calls it received.
  */
  datatype Snapshot = Snapshot(
    strideDyn: int,
    metrics: Metrics,
    enh: Enhancement,
    evBias: real,
    evLastUpdate: real,
    gainValue: real,
    gainLastUpdate: real,
    shutterUs: int,
    shutterLastUpdate: real,
    manualExposure: bool,
    adjustLastTs: real,
    adjustPauseUntil: real,
    seedAtResume: bool,
    lastFrameTs: real,
    state: ServiceState,
    cameraLog: seq<CameraCall>,
    baseline: bool,
    detectorLog: seq<DetectorCall>
  )

  function ControlsOf(f: Snapshot): Controls {
    Controls(f.evBias, f.evLastUpdate, f.gainValue, f.gainLastUpdate, f.shutterUs, f.shutterLastUpdate)
  }

  /** With sane settings: each control within its limits and the averages within their ranges. */
  predicate InRange(f: Snapshot, cfg: Config) {
    Sane(cfg) ==>
      && cfg.evMin <= f.evBias <= cfg.evMax
      && cfg.gainMin <= f.gainValue <= cfg.gainMax
      && cfg.shutterBaseUs <= f.shutterUs <= cfg.shutterMaxUs
      && MetricsInRange(f.metrics)
  }

  /** A step's new fields, and whether it reset the motion detector. */
  datatype Outcome = Outcome(fields: Snapshot, reset: bool)

  /** Opening a pause window: detection pauses until `now + pause`, the detector is reset and a reseed is owed. */
  function OpenWindow(f: Snapshot, now: real, cfg: Config): Snapshot {
    f.(adjustPauseUntil := now + cfg.motionAdjustPauseSec, seedAtResume := true,
       baseline := false, detectorLog := f.detectorLog + [ResetCall])
  }

  /** `n` calls of the detector's `reset`. */
  function Resets(n: nat): (calls: seq<DetectorCall>)
    ensures |calls| == n
  {
    if n == 0 then [] else Resets(n - 1) + [ResetCall]
  }

  /** Those calls are all resets, and there is one when `n` is positive. */
  lemma {:induction false} ResetsOnlyResets(n: nat)
    ensures forall c :: c in Resets(n) ==> c == ResetCall
    ensures n > 0 ==> ResetCall in Resets(n)
  {
    if n > 0 {
      ResetsOnlyResets(n - 1);
      assert Resets(n) == Resets(n - 1) + [ResetCall];
    }
  }

  /** Resets recorded after `a` earlier ones amount to `a + b` resets after the same history. */
  lemma {:induction false} ResetsSnoc(c: seq<DetectorCall>, a: nat, b: nat)
    ensures c + Resets(a) + Resets(b) == c + Resets(a + b)
  {
    if b > 0 {
      ResetsSnoc(c, a, b - 1);
      assert c + Resets(a) + Resets(b) == c + Resets(a) + Resets(b - 1) + [ResetCall];
    }
  }

  /** `_maybe_adjust_ev`; `accepted` is the camera's answer to `set_ev`. */
  function EvStep(f: Snapshot, s: ExposureState, now: real, cfg: Config, caps: Capabilities, accepted: bool): Outcome {
    if !EvCalls(s, ControlsOf(f), now, cfg, caps) then Outcome(f, false)
    else
      var ev := EvTarget(s, f.evBias, cfg).value;
      var f1 := f.(cameraLog := f.cameraLog + [SetEv(ev)]);
      if accepted then Outcome(OpenWindow(f1.(evBias := ev, evLastUpdate := now), now, cfg), true)
      else Outcome(f1, false)
  }

  /**
    Unless the stepper is enabled, supported, due, has a target for the state
    and that target differs by at least 1e-6, and the camera accepts it,
    nothing changes but the record of an attempted call. When it does, the
    bias becomes the target, its time is stamped, a pause window opens and
    the detector is reset.
  */
  lemma EvStepEffect(f: Snapshot, s: ExposureState, now: real, cfg: Config, caps: Capabilities, accepted: bool)
    ensures var o := EvStep(f, s, now, cfg, caps, accepted);
      && (!(EvCalls(s, ControlsOf(f), now, cfg, caps) && accepted) ==> o.fields.(cameraLog := f.cameraLog) == f && !o.reset)
      && (EvCalls(s, ControlsOf(f), now, cfg, caps) && accepted ==>
            && o.reset && o.fields.evBias == EvTarget(s, f.evBias, cfg).value && o.fields.evLastUpdate == now
            && o.fields.adjustPauseUntil == now + cfg.motionAdjustPauseSec && o.fields.seedAtResume)
      && (o.fields.evBias != f.evBias ==> !(Abs(o.fields.evBias - f.evBias) < 0.000001))
  {
  }

  /** `_maybe_adjust_gain`; `accepted` is the camera's answer to `set_gain`. */
  function GainStep(f: Snapshot, s: ExposureState, now: real, cfg: Config, caps: Capabilities, accepted: bool): Outcome {
    if !GainCalls(s, ControlsOf(f), now, cfg, caps) then Outcome(f, false)
    else
      var g := GainTarget(s, f.gainValue, cfg).value;
      var f1 := f.(cameraLog := f.cameraLog + [SetGain(g)]);
      if accepted then Outcome(OpenWindow(f1.(gainValue := g, gainLastUpdate := now), now, cfg), true)
      else Outcome(f1, false)
  }

  /** The gain stepper follows the same discipline as the EV stepper. */
  lemma GainStepEffect(f: Snapshot, s: ExposureState, now: real, cfg: Config, caps: Capabilities, accepted: bool)
    ensures var o := GainStep(f, s, now, cfg, caps, accepted);
      && (!(GainCalls(s, ControlsOf(f), now, cfg, caps) && accepted) ==> o.fields.(cameraLog := f.cameraLog) == f && !o.reset)
      && (GainCalls(s, ControlsOf(f), now, cfg, caps) && accepted ==>
            && o.reset && o.fields.gainValue == GainTarget(s, f.gainValue, cfg).value && o.fields.gainLastUpdate == now
            && o.fields.adjustPauseUntil == now + cfg.motionAdjustPauseSec && o.fields.seedAtResume)
      && (o.fields.gainValue != f.gainValue ==> !(Abs(o.fields.gainValue - f.gainValue) < 0.000001))
  {
  }

  /**
    `_maybe_adjust_shutter`: when enabled, supported and due, "under" asks for
    one step longer (capped at the maximum) unless that is no change;
    "normal" and "over" ask for one return step shorter (floored at base)
    whenever the shutter is above base, and then ask for automatic exposure
    when the shutter is within one return step of base. An accepted shutter
    time switches to manual exposure, stamps the update time and opens a
    pause window.
  */
  function ShutterStep(f: Snapshot, s: ExposureState, now: real, cfg: Config, caps: Capabilities,
                       accepted: bool, autoAccepted: bool): Outcome
  {
    var due := cfg.shutterAdaptEnable && caps.supportsShutter
               && IntervalElapsed(f.shutterLastUpdate, now, cfg.shutterUpdateIntervalSec);
    if !(due && (s == Under || s == Normal || s == Over)) then Outcome(f, false)
    else
      var m := ShutterMove(f, s, now, cfg, accepted);
      Outcome(ReenableAuto(m.fields, s, cfg, caps, autoAccepted), m.reset)
  }

  /** The shutter change itself, once the stepper is due in a known state. */
  function ShutterMove(f: Snapshot, s: ExposureState, now: real, cfg: Config, accepted: bool): Outcome {
    var cur := f.shutterUs;
    var target := if s == Under then ShutterUnderTarget(cur, cfg) else ShutterReturnTarget(cur, cfg);
    if !ShutterMoves(s, cur, cfg) then Outcome(f, false)
    else if !accepted then Outcome(f.(cameraLog := f.cameraLog + [SetShutter(target)]), false)
    else Outcome(OpenWindow(f.(shutterUs := target, manualExposure := true, shutterLastUpdate := now,
                               cameraLog := f.cameraLog + [SetShutter(target)]), now, cfg), true)
  }

  /** Outside "under", a shutter within one return step of base asks for automatic exposure, which ends manual exposure when accepted. */
  function ReenableAuto(f: Snapshot, s: ExposureState, cfg: Config, caps: Capabilities, autoAccepted: bool): Snapshot {
    if s != Under && IAbs(f.shutterUs - cfg.shutterBaseUs) <= cfg.shutterReturnStepUs && caps.hasAutoExposure then
      f.(cameraLog := f.cameraLog + [SetAutoExposure], manualExposure := if autoAccepted then false else f.manualExposure)
    else f
  }

  /** "Under" only lengthens the shutter, "normal"/"over" only shorten it and never below base, and it stays within [base, max]. */
  lemma ShutterStepDirection(f: Snapshot, s: ExposureState, now: real, cfg: Config, caps: Capabilities, accepted: bool, autoAccepted: bool)
    requires Sane(cfg) && cfg.shutterBaseUs <= f.shutterUs <= cfg.shutterMaxUs
    ensures var r := ShutterStep(f, s, now, cfg, caps, accepted, autoAccepted).fields.shutterUs;
      && cfg.shutterBaseUs <= r <= cfg.shutterMaxUs
      && (s == Under ==> r >= f.shutterUs)
      && (s == Normal || s == Over ==> r <= f.shutterUs)
      && (s != Under && s != Normal && s != Over ==> r == f.shutterUs)
  {
  }

  /** Manual exposure ends only near base, outside "under", and only when the camera accepted automatic exposure. */
  lemma ShutterManualEndsNearBase(f: Snapshot, s: ExposureState, now: real, cfg: Config, caps: Capabilities, accepted: bool, autoAccepted: bool)
    ensures var r := ShutterStep(f, s, now, cfg, caps, accepted, autoAccepted).fields;
      f.manualExposure && !r.manualExposure ==>
        && s != Under && autoAccepted
        && IAbs(r.shutterUs - cfg.shutterBaseUs) <= cfg.shutterReturnStepUs
        && |r.cameraLog| > 0 && r.cameraLog[|r.cameraLog| - 1] == SetAutoExposure
  {
  }

  /** The update time is stamped only when the camera accepted a shutter time, and with a positive return step only when the time changed. */
  lemma ShutterStampOnChange(f: Snapshot, s: ExposureState, now: real, cfg: Config, caps: Capabilities, accepted: bool, autoAccepted: bool)
    ensures var o := ShutterStep(f, s, now, cfg, caps, accepted, autoAccepted);
      && (o.fields.shutterLastUpdate != f.shutterLastUpdate ==> o.reset && o.fields.shutterLastUpdate == now)
      && (cfg.shutterReturnStepUs > 0 && o.fields.shutterUs == f.shutterUs ==> o.fields.shutterLastUpdate == f.shutterLastUpdate)
  {
  }

  /**
    Each stepper changes only its own control fields, the pause deadline,
    the reseed debt, the detector and the camera log; it either resets the
    detector and opens a window, or leaves deadline, debt and detector
    alone; and it only appends to the camera log.
  */
  predicate StepFrame(f: Snapshot, o: Outcome, now: real, cfg: Config) {
    && o.fields.metrics == f.metrics && o.fields.strideDyn == f.strideDyn && o.fields.enh == f.enh
    && o.fields.state == f.state && o.fields.adjustLastTs == f.adjustLastTs && o.fields.lastFrameTs == f.lastFrameTs
    && o.fields.adjustPauseUntil == (if o.reset then now + cfg.motionAdjustPauseSec else f.adjustPauseUntil)
    && o.fields.seedAtResume == (o.reset || f.seedAtResume)
    && f.cameraLog <= o.fields.cameraLog
  }

  /** Between `f` and `r` the detector received exactly `n` resets and nothing else, and holds a baseline only if it held one and was never reset. */
  predicate DetectorFrame(f: Snapshot, r: Snapshot, n: nat) {
    r.baseline == (f.baseline && n == 0) && r.detectorLog == f.detectorLog + Resets(n)
  }

  lemma EvStepFrame(f: Snapshot, s: ExposureState, now: real, cfg: Config, caps: Capabilities, accepted: bool)
    ensures var o := EvStep(f, s, now, cfg, caps, accepted);
      && StepFrame(f, o, now, cfg) && DetectorFrame(f, o.fields, Count(o.reset))
      && o.fields.gainValue == f.gainValue && o.fields.gainLastUpdate == f.gainLastUpdate
      && o.fields.shutterUs == f.shutterUs && o.fields.shutterLastUpdate == f.shutterLastUpdate
      && o.fields.manualExposure == f.manualExposure
      && (EvCalls(s, ControlsOf(f), now, cfg, caps) ==> |o.fields.cameraLog| > |f.cameraLog|)
  {
  }

  lemma GainStepFrame(f: Snapshot, s: ExposureState, now: real, cfg: Config, caps: Capabilities, accepted: bool)
    ensures var o := GainStep(f, s, now, cfg, caps, accepted);
      && StepFrame(f, o, now, cfg) && DetectorFrame(f, o.fields, Count(o.reset))
      && o.fields.evBias == f.evBias && o.fields.evLastUpdate == f.evLastUpdate
      && o.fields.shutterUs == f.shutterUs && o.fields.shutterLastUpdate == f.shutterLastUpdate
      && o.fields.manualExposure == f.manualExposure
      && (GainCalls(s, ControlsOf(f), now, cfg, caps) ==> |o.fields.cameraLog| > |f.cameraLog|)
      && (!GainCalls(s, ControlsOf(f), now, cfg, caps) ==> o == Outcome(f, false))
  {
  }

  lemma ShutterStepFrame(f: Snapshot, s: ExposureState, now: real, cfg: Config, caps: Capabilities, accepted: bool, autoAccepted: bool)
    ensures var o := ShutterStep(f, s, now, cfg, caps, accepted, autoAccepted);
      && StepFrame(f, o, now, cfg) && DetectorFrame(f, o.fields, Count(o.reset))
      && o.fields.evBias == f.evBias && o.fields.evLastUpdate == f.evLastUpdate
      && o.fields.gainValue == f.gainValue && o.fields.gainLastUpdate == f.gainLastUpdate
      && (ShutterCalls(s, ControlsOf(f), now, cfg, caps) ==> |o.fields.cameraLog| > |f.cameraLog|)
  {
    var due := cfg.shutterAdaptEnable && caps.supportsShutter
               && IntervalElapsed(f.shutterLastUpdate, now, cfg.shutterUpdateIntervalSec);
    if due && (s == Under || s == Normal || s == Over) {
      var m := ShutterMove(f, s, now, cfg, accepted);
      ShutterMoveFrame(f, s, now, cfg, accepted);
      ReenableAutoFrame(m.fields, s, cfg, caps, autoAccepted);
    } else {
      assert Resets(0) == [];
    }
  }

  /** The shutter change keeps to the stepper discipline, and the request for automatic exposure that may follow only touches the log and the manual flag. */
  lemma ShutterMoveFrame(f: Snapshot, s: ExposureState, now: real, cfg: Config, accepted: bool)
    ensures var m := ShutterMove(f, s, now, cfg, accepted);
      && StepFrame(f, m, now, cfg) && DetectorFrame(f, m.fields, Count(m.reset))
      && m.fields.evBias == f.evBias && m.fields.evLastUpdate == f.evLastUpdate
      && m.fields.gainValue == f.gainValue && m.fields.gainLastUpdate == f.gainLastUpdate
      && (ShutterMoves(s, f.shutterUs, cfg) ==> |m.fields.cameraLog| > |f.cameraLog|)
  {
    if !(ShutterMoves(s, f.shutterUs, cfg) && accepted) {
      assert Resets(0) == [];
    }
  }

  lemma ReenableAutoFrame(f: Snapshot, s: ExposureState, cfg: Config, caps: Capabilities, autoAccepted: bool)
    ensures var r := ReenableAuto(f, s, cfg, caps, autoAccepted);
      r.(cameraLog := f.cameraLog, manualExposure := f.manualExposure) == f && f.cameraLog <= r.cameraLog
  {
  }

  /** The coordinator's new fields, whether it reset the detector, and whether the steppers run. */
  datatype Decision = Decision(fields: Snapshot, reset: bool, runAdjust: bool)

  /**
    The adjustment coordinator around a failsafe verdict: a periodic window
    opens when the period has passed since the last one; while a pause window
    lasts adjustments continue; otherwise the failsafe, when it fires, opens a
    window.
  */
  function CoordinateWith(f: Snapshot, now: real, cfg: Config, failsafe: bool): Decision {
    if now - f.adjustLastTs >= cfg.motionAdjustPeriodSec then
      Decision(OpenWindow(f.(adjustLastTs := now), now, cfg), true, true)
    else if now < f.adjustPauseUntil then Decision(f, false, true)
    else if failsafe then Decision(OpenWindow(f, now, cfg), true, true)
    else Decision(f, false, false)
  }

  /** The coordinator as written, whose failsafe tests only the update times and the driver's support. */
  function CoordinateStep(f: Snapshot, s: ExposureState, now: real, cfg: Config, caps: Capabilities): Decision {
    CoordinateWith(f, now, cfg, FailsafeFiresAsWritten(s, ControlsOf(f), now, cfg, caps))
  }

  /** The coordinator with the corrected failsafe, which fires only when some stepper would call the camera. */
  function CorrectedCoordinateStep(f: Snapshot, s: ExposureState, now: real, cfg: Config, caps: Capabilities): Decision {
    CoordinateWith(f, now, cfg, FailsafeFires(s, ControlsOf(f), now, cfg, caps))
  }

  /** The steppers' result: the new fields and how many of them reset the detector. */
  datatype Adapted = Adapted(fields: Snapshot, resets: nat)

  function Count(b: bool): nat { if b then 1 else 0 }

  /** The three steppers in order when the coordinator says so, counting the detector resets including the coordinator's. */
  function AdjustControls(d: Decision, s: ExposureState, now: real, replies: Replies, cfg: Config, caps: Capabilities): Adapted {
    if !d.runAdjust then Adapted(d.fields, Count(d.reset))
    else
      var e := EvStep(d.fields, s, now, cfg, caps, replies.evAccepted);
      var g := GainStep(e.fields, s, now, cfg, caps, replies.gainAccepted);
      var h := ShutterStep(g.fields, s, now, cfg, caps, replies.shutterAccepted, replies.autoExposureAccepted);
      Adapted(h.fields, Count(d.reset) + Count(e.reset) + Count(g.reset) + Count(h.reset))
  }

  /** Through the three steppers: deadline and debt as after a window when any of them reset the detector, and the log only grows. */
  lemma AdjustControlsFrame(d: Decision, s: ExposureState, now: real, replies: Replies, cfg: Config, caps: Capabilities)
    requires d.runAdjust
    ensures var a := AdjustControls(d, s, now, replies, cfg, caps);
      && a.resets >= Count(d.reset)
      && StepFrame(d.fields, Outcome(a.fields, a.resets > Count(d.reset)), now, cfg)
  {
    var e := EvStep(d.fields, s, now, cfg, caps, replies.evAccepted);
    var g := GainStep(e.fields, s, now, cfg, caps, replies.gainAccepted);
    var h := ShutterStep(g.fields, s, now, cfg, caps, replies.shutterAccepted, replies.autoExposureAccepted);
    EvStepFrame(d.fields, s, now, cfg, caps, replies.evAccepted);
    GainStepFrame(e.fields, s, now, cfg, caps, replies.gainAccepted);
    ShutterStepFrame(g.fields, s, now, cfg, caps, replies.shutterAccepted, replies.autoExposureAccepted);
    AdjustControlsResets(d, s, now, replies, cfg, caps);
  }

  /** Through the three steppers the detector receives one reset per accepted change and nothing else. */
  lemma AdjustControlsResets(d: Decision, s: ExposureState, now: real, replies: Replies, cfg: Config, caps: Capabilities)
    requires d.runAdjust
    ensures var a := AdjustControls(d, s, now, replies, cfg, caps);
      a.resets >= Count(d.reset) && DetectorFrame(d.fields, a.fields, a.resets - Count(d.reset))
  {
    var e := EvStep(d.fields, s, now, cfg, caps, replies.evAccepted);
    var g := GainStep(e.fields, s, now, cfg, caps, replies.gainAccepted);
    var h := ShutterStep(g.fields, s, now, cfg, caps, replies.shutterAccepted, replies.autoExposureAccepted);
    EvStepFrame(d.fields, s, now, cfg, caps, replies.evAccepted);
    GainStepFrame(e.fields, s, now, cfg, caps, replies.gainAccepted);
    ShutterStepFrame(g.fields, s, now, cfg, caps, replies.shutterAccepted, replies.autoExposureAccepted);
    ResetsSnoc(d.fields.detectorLog, Count(e.reset), Count(g.reset));
    ResetsSnoc(d.fields.detectorLog, Count(e.reset) + Count(g.reset), Count(h.reset));
  }

  /**
    The first half of `_update_exposure_and_adapt` with adaptation on: the
    averages, the classification and its mirror in the public state, the
    stride and the enhancement.
  */
  function Measure(f: Snapshot, strideBase: int, sample: Metrics, now: real, cfg: Config): (f1: Snapshot)
    ensures f1.state.exposureState == Classify(f.state.exposureState, f1.metrics, cfg)
  {
    var m := SmoothMetrics(f.metrics, sample, cfg.expEmaAlpha);
    var s := Classify(f.state.exposureState, m, cfg);
    f.(metrics := m,
       state := f.state.(exposureState := s, exposureMean := m.mean, exposureLowClip := m.lowClip, exposureHighClip := m.highClip),
       strideDyn := if strideBase >= 1 then AdaptedStride(s, strideBase, cfg.adaptDetectStrideScale) else strideBase,
       enh := EnhanceStep(f.enh, s, now, cfg))
  }

  /** The second half: the coordinator, the steppers it lets run, and the mirror of the controls in the public state. */
  function Adjust(f1: Snapshot, now: real, replies: Replies, cfg: Config, caps: Capabilities): Adapted {
    var s := f1.state.exposureState;
    var a := AdjustControls(CoordinateStep(f1, s, now, cfg, caps), s, now, replies, cfg, caps);
    var r := a.fields;
    Adapted(r.(state := r.state.(evBias := r.evBias, gain := r.gainValue, shutterUs := r.shutterUs)), a.resets)
  }

  /**
    `_update_exposure_and_adapt` for a frame with statistics `sample`. With
    adaptation off only the state label and the stride change.
  */
  function ExposureStep(f: Snapshot, strideBase: int, sample: Metrics, now: real, replies: Replies,
                        cfg: Config, caps: Capabilities): Adapted
  {
    if !cfg.adaptiveSensitivity then
      Adapted(f.(strideDyn := strideBase, state := f.state.(exposureState := Off)), 0)
    else Adjust(Measure(f, strideBase, sample, now, cfg), now, replies, cfg, caps)
  }

  /** With adaptation off the state reads "off", the stride is the base one, and nothing else changes. */
  lemma ExposureStepOff(f: Snapshot, strideBase: int, sample: Metrics, now: real, replies: Replies, cfg: Config, caps: Capabilities)
    requires !cfg.adaptiveSensitivity
    ensures var a := ExposureStep(f, strideBase, sample, now, replies, cfg, caps);
      && a.resets == 0
      && a.fields.state.exposureState == Off && a.fields.strideDyn == strideBase
      && a.fields.(strideDyn := f.strideDyn, state := f.state) == f
  {
  }

  /** The steppers never touch the averages, the stride, the enhancement or the reported state. */
  lemma AdjustKeepsMeasures(f1: Snapshot, now: real, replies: Replies, cfg: Config, caps: Capabilities)
    ensures var r := Adjust(f1, now, replies, cfg, caps).fields;
      && r.metrics == f1.metrics && r.strideDyn == f1.strideDyn && r.enh == f1.enh && r.lastFrameTs == f1.lastFrameTs
      && r.state == f1.state.(evBias := r.evBias, gain := r.gainValue, shutterUs := r.shutterUs)
      && r.adjustLastTs == (if now - f1.adjustLastTs >= cfg.motionAdjustPeriodSec then now else f1.adjustLastTs)
  {
    var d := CoordinateStep(f1, f1.state.exposureState, now, cfg, caps);
    if d.runAdjust {
      AdjustControlsFrame(d, f1.state.exposureState, now, replies, cfg, caps);
    }
  }

  /** With adaptation on: the averages, classification, stride and enhancement follow their rules, and the controls are mirrored. */
  lemma ExposureStepAdapts(f: Snapshot, strideBase: int, sample: Metrics, now: real, replies: Replies, cfg: Config, caps: Capabilities)
    requires cfg.adaptiveSensitivity && strideBase >= 1
    ensures var r := ExposureStep(f, strideBase, sample, now, replies, cfg, caps).fields;
      var m := SmoothMetrics(f.metrics, sample, cfg.expEmaAlpha);
      var s := Classify(f.state.exposureState, m, cfg);
      && r.metrics == m
      && r.strideDyn == AdaptedStride(s, strideBase, cfg.adaptDetectStrideScale)
      && r.enh == EnhanceStep(f.enh, s, now, cfg)
      && r.state == f.state.(exposureState := s, exposureMean := m.mean, exposureLowClip := m.lowClip,
                             exposureHighClip := m.highClip, evBias := r.evBias, gain := r.gainValue, shutterUs := r.shutterUs)
      && r.adjustLastTs == (if now - f.adjustLastTs >= cfg.motionAdjustPeriodSec then now else f.adjustLastTs)
  {
    AdjustKeepsMeasures(Measure(f, strideBase, sample, now, cfg), now, replies, cfg, caps);
  }

  /** Whether the failsafe fires for fields `f1` already classified: no periodic window, no window in force, and the test as written holds. */
  predicate FailsafeFiresOn(f1: Snapshot, now: real, cfg: Config, caps: Capabilities) {
    && !(now - f1.adjustLastTs >= cfg.motionAdjustPeriodSec)
    && !(now < f1.adjustPauseUntil)
    && FailsafeFiresAsWritten(f1.state.exposureState, ControlsOf(f1), now, cfg, caps)
  }

  /** The same with the corrected failsafe test. */
  predicate CorrectedFailsafeFiresOn(f1: Snapshot, now: real, cfg: Config, caps: Capabilities) {
    && !(now - f1.adjustLastTs >= cfg.motionAdjustPeriodSec)
    && !(now < f1.adjustPauseUntil)
    && FailsafeFires(f1.state.exposureState, ControlsOf(f1), now, cfg, caps)
  }

  /**
    A window opened by the period or the failsafe pauses detection until
    `now + pause`, owes a reseed and resets the detector; the steppers that
    follow keep that deadline.
  */
  lemma AdjustOpensWindow(f1: Snapshot, now: real, replies: Replies, cfg: Config, caps: Capabilities)
    requires now - f1.adjustLastTs >= cfg.motionAdjustPeriodSec || FailsafeFiresOn(f1, now, cfg, caps)
    ensures var a := Adjust(f1, now, replies, cfg, caps);
      a.fields.adjustPauseUntil == now + cfg.motionAdjustPauseSec && a.fields.seedAtResume && a.resets > 0
  {
    AdjustControlsFrame(CoordinateStep(f1, f1.state.exposureState, now, cfg, caps), f1.state.exposureState, now, replies, cfg, caps);
  }

  /** When the corrected failsafe fires, the steppers that follow call the camera at least once: it never opens a window for nothing. */
  lemma FailsafeMakesProgress(f1: Snapshot, now: real, replies: Replies, cfg: Config, caps: Capabilities)
    requires CorrectedFailsafeFiresOn(f1, now, cfg, caps)
    ensures var s := f1.state.exposureState;
      |AdjustControls(CorrectedCoordinateStep(f1, s, now, cfg, caps), s, now, replies, cfg, caps).fields.cameraLog| > |f1.cameraLog|
  {
    var s := f1.state.exposureState;
    var d := CorrectedCoordinateStep(f1, s, now, cfg, caps);
    assert d.runAdjust && d.fields == OpenWindow(f1, now, cfg) && ControlsOf(d.fields) == ControlsOf(f1);
    var e := EvStep(d.fields, s, now, cfg, caps, replies.evAccepted);
    var g := GainStep(e.fields, s, now, cfg, caps, replies.gainAccepted);
    EvStepFrame(d.fields, s, now, cfg, caps, replies.evAccepted);
    GainStepFrame(e.fields, s, now, cfg, caps, replies.gainAccepted);
    ShutterStepFrame(g.fields, s, now, cfg, caps, replies.shutterAccepted, replies.autoExposureAccepted);
    if !EvCalls(s, ControlsOf(f1), now, cfg, caps) && !GainCalls(s, ControlsOf(f1), now, cfg, caps) {
      assert e.fields == d.fields && g.fields == d.fields;
    }
  }

  /**
    The corrected coordinator differs from the one as written only where the
    failsafe as written fires and the corrected one does not: whenever it
    runs the steppers, and whenever the failsafe as written is quiet, the two
    decide alike.
  */
  lemma CorrectedCoordinatorNarrows(f: Snapshot, s: ExposureState, now: real, cfg: Config, caps: Capabilities)
    ensures var c := CorrectedCoordinateStep(f, s, now, cfg, caps);
      && (c.runAdjust ==> c == CoordinateStep(f, s, now, cfg, caps))
      && (!FailsafeFiresAsWritten(s, ControlsOf(f), now, cfg, caps) ==> c == CoordinateStep(f, s, now, cfg, caps))
  {
    FailsafeFiresNarrowsAsWritten(s, ControlsOf(f), now, cfg, caps);
  }

  /** A frame that opens no window and falls outside any window leaves the controls, the deadline, the reseed debt and the camera alone. */
  lemma QuietFrameKeepsControls(f1: Snapshot, now: real, replies: Replies, cfg: Config, caps: Capabilities)
    requires !(now - f1.adjustLastTs >= cfg.motionAdjustPeriodSec) && !(now < f1.adjustPauseUntil)
    requires !FailsafeFiresOn(f1, now, cfg, caps)
    ensures var a := Adjust(f1, now, replies, cfg, caps);
      && a.resets == 0 && ControlsOf(a.fields) == ControlsOf(f1)
      && a.fields.adjustPauseUntil == f1.adjustPauseUntil && a.fields.seedAtResume == f1.seedAtResume
      && a.fields.cameraLog == f1.cameraLog
  {
  }

  /** The second half resets the detector once per window it opens and per accepted change, and makes no other call on it. */
  lemma AdjustResetsDetector(f1: Snapshot, now: real, replies: Replies, cfg: Config, caps: Capabilities)
    ensures var a := Adjust(f1, now, replies, cfg, caps);
      DetectorFrame(f1, a.fields, a.resets)
  {
    var s := f1.state.exposureState;
    var d := CoordinateStep(f1, s, now, cfg, caps);
    assert DetectorFrame(f1, d.fields, Count(d.reset));
    if d.runAdjust {
      var a := AdjustControls(d, s, now, replies, cfg, caps);
      AdjustControlsResets(d, s, now, replies, cfg, caps);
      ResetsSnoc(f1.detectorLog, Count(d.reset), a.resets - Count(d.reset));
    }
  }

  /** The whole exposure step makes no call on the detector but those resets. */
  lemma ExposureStepResetsDetector(f: Snapshot, strideBase: int, sample: Metrics, now: real, replies: Replies, cfg: Config, caps: Capabilities)
    ensures var a := ExposureStep(f, strideBase, sample, now, replies, cfg, caps);
      DetectorFrame(f, a.fields, a.resets)
  {
    if cfg.adaptiveSensitivity {
      AdjustResetsDetector(Measure(f, strideBase, sample, now, cfg), now, replies, cfg, caps);
    } else {
      assert Resets(0) == [];
    }
  }

  /** The exposure step leaves the frame time, the frame counter and the armed flag alone. */
  lemma ExposureStepKeepsFrame(f: Snapshot, strideBase: int, sample: Metrics, now: real, replies: Replies, cfg: Config, caps: Capabilities)
    ensures var r := ExposureStep(f, strideBase, sample, now, replies, cfg, caps).fields;
      r.lastFrameTs == f.lastFrameTs && r.state.totalFrames == f.state.totalFrames && r.state.armed == f.state.armed
  {
    if cfg.adaptiveSensitivity {
      AdjustKeepsMeasures(Measure(f, strideBase, sample, now, cfg), now, replies, cfg, caps);
    }
  }

  /** A reseed already owed stays owed through the exposure step. */
  lemma ExposureStepKeepsSeedDebt(f: Snapshot, strideBase: int, sample: Metrics, now: real, replies: Replies, cfg: Config, caps: Capabilities)
    requires f.seedAtResume
    ensures ExposureStep(f, strideBase, sample, now, replies, cfg, caps).fields.seedAtResume
  {
    if cfg.adaptiveSensitivity {
      var f1 := Measure(f, strideBase, sample, now, cfg);
      var d := CoordinateStep(f1, f1.state.exposureState, now, cfg, caps);
      if d.runAdjust {
        AdjustControlsFrame(d, f1.state.exposureState, now, replies, cfg, caps);
      }
    }
  }

  /** The EV stepper keeps the fields within range. */
  lemma EvStepKeepsRanges(f: Snapshot, s: ExposureState, now: real, cfg: Config, caps: Capabilities, accepted: bool)
    requires InRange(f, cfg)
    ensures InRange(EvStep(f, s, now, cfg, caps, accepted).fields, cfg)
  {
    if Sane(cfg) {
      EvTargetInRange(s, f.evBias, cfg);
    }
  }

  /** The gain stepper keeps the fields within range. */
  lemma GainStepKeepsRanges(f: Snapshot, s: ExposureState, now: real, cfg: Config, caps: Capabilities, accepted: bool)
    requires InRange(f, cfg)
    ensures InRange(GainStep(f, s, now, cfg, caps, accepted).fields, cfg)
  {
    if Sane(cfg) {
      GainTargetInRange(s, f.gainValue, cfg);
    }
  }

  /** The shutter stepper keeps the fields within range. */
  lemma ShutterStepKeepsRanges(f: Snapshot, s: ExposureState, now: real, cfg: Config, caps: Capabilities, accepted: bool, autoAccepted: bool)
    requires InRange(f, cfg)
    ensures InRange(ShutterStep(f, s, now, cfg, caps, accepted, autoAccepted).fields, cfg)
  {
    if Sane(cfg) {
      ShutterStepDirection(f, s, now, cfg, caps, accepted, autoAccepted);
    }
  }

  /** The second half keeps the fields within range. */
  lemma AdjustKeepsRanges(f1: Snapshot, now: real, replies: Replies, cfg: Config, caps: Capabilities)
    requires InRange(f1, cfg)
    ensures InRange(Adjust(f1, now, replies, cfg, caps).fields, cfg)
  {
    var s := f1.state.exposureState;
    var d := CoordinateStep(f1, s, now, cfg, caps);
    assert InRange(d.fields, cfg);
    if d.runAdjust {
      var e := EvStep(d.fields, s, now, cfg, caps, replies.evAccepted);
      var g := GainStep(e.fields, s, now, cfg, caps, replies.gainAccepted);
      EvStepKeepsRanges(d.fields, s, now, cfg, caps, replies.evAccepted);
      GainStepKeepsRanges(e.fields, s, now, cfg, caps, replies.gainAccepted);
      ShutterStepKeepsRanges(g.fields, s, now, cfg, caps, replies.shutterAccepted, replies.autoExposureAccepted);
    }
  }

  /** The exposure step keeps the fields within range, given a frame whose statistics are in range. */
  lemma ExposureStepKeepsRanges(f: Snapshot, strideBase: int, sample: Metrics, now: real, replies: Replies, cfg: Config, caps: Capabilities)
    requires InRange(f, cfg) && MetricsInRange(sample)
    ensures InRange(ExposureStep(f, strideBase, sample, now, replies, cfg, caps).fields, cfg)
  {
    if cfg.adaptiveSensitivity {
      if Sane(cfg) {
        SmoothMetricsInRange(f.metrics, sample, cfg.expEmaAlpha);
      }
      AdjustKeepsRanges(Measure(f, strideBase, sample, now, cfg), now, replies, cfg, caps);
    }
  }

  /** The number of detections labelled `kind`. */
  function CountKind(ds: seq<Detection>, kind: string): (n: nat)
    ensures n <= |ds|
    ensures n > 0 <==> exists d :: d in ds && d.kind == kind
  {
    if ds == [] then 0
    else
      assert forall d :: d in ds <==> d == ds[0] || d in ds[1..];
      (if ds[0].kind == kind then 1 else 0) + CountKind(ds[1..], kind)
  }

  /** Two different labels are counted from disjoint parts of the list. */
  lemma {:induction false} CountTwoKinds(ds: seq<Detection>, a: string, b: string)
    requires a != b
    ensures CountKind(ds, a) + CountKind(ds, b) <= |ds|
  {
    if ds != [] {
      CountTwoKinds(ds[1..], a, b);
    }
  }

  /** `last_kinds`: "person" when a person was seen, then "face" when a face was. */
  function KindsSeen(persons: nat, faces: nat): seq<string> {
    (if persons > 0 then ["person"] else []) + (if faces > 0 then ["face"] else [])
  }

  /**
    The state after a detection tick that produced `dets`: a non-empty result
    marks the service detecting and records counts and kinds; an empty one
    clears them once the cooldown since the last detection has passed.
  */
  function AfterDetections(st: ServiceState, dets: seq<Detection>, now: real, cooldown: real): ServiceState {
    if dets != [] then
      var persons := CountKind(dets, "person");
      var faces := CountKind(dets, "face");
      st.(detecting := true, lastDetectionTs := now, personCount := persons, faceCount := faces,
          lastKinds := KindsSeen(persons, faces))
    else if now - st.lastDetectionTs > cooldown then
      st.(detecting := false, personCount := 0, faceCount := 0, lastKinds := [])
    else st
  }

  /** A non-empty result reports each label exactly when a detection carries it, and the counts add up to at most the result's length. */
  lemma DetectionsReported(st: ServiceState, dets: seq<Detection>, now: real, cooldown: real)
    requires dets != []
    ensures var st' := AfterDetections(st, dets, now, cooldown);
      && st'.detecting && st'.lastDetectionTs == now
      && ("person" in st'.lastKinds <==> exists d :: d in dets && d.kind == "person")
      && ("face" in st'.lastKinds <==> exists d :: d in dets && d.kind == "face")
      && st'.personCount + st'.faceCount <= |dets|
  {
    CountTwoKinds(dets, "person", "face");
    var st' := AfterDetections(st, dets, now, cooldown);
    assert "person" != "face";
    if "face" in st'.lastKinds {
      assert CountKind(dets, "face") > 0;
    }
  }

  /** An empty result clears the report only after the cooldown, and changes nothing before it. */
  lemma CooldownClearsReport(st: ServiceState, now: real, cooldown: real)
    ensures var st' := AfterDetections(st, [], now, cooldown);
      if now - st.lastDetectionTs > cooldown
      then !st'.detecting && st'.personCount == 0 && st'.faceCount == 0 && st'.lastKinds == []
           && st'.lastDetectionTs == st.lastDetectionTs
      else st' == st
  {
  }

  /**
    The detection step of `_run` for frame number `frameIdx`, with `found`
    what the detector reports if it runs: on every stride-th frame a pause
    window blocks both seeding and detection; an owed reseed happens on the
    first unpaused stride frame and replaces the detection there; otherwise,
    when armed and unpaused, the detector runs, keeps the frame as its
    baseline, and its result updates the reported state, with the cooldown
    rule for empty results. A detector without a baseline reports nothing.
  */
  function GateStep(f: Snapshot, now: real, frameIdx: nat, found: seq<Detection>, cooldown: real): Snapshot {
    if frameIdx % IMax(1, f.strideDyn) != 0 then f
    else
      var paused := now < f.adjustPauseUntil;
      var seedNow := f.seedAtResume && !paused;
      var detectNow := f.state.armed && !paused && !seedNow;
      var dets := if detectNow && f.baseline then found else [];
      f.(seedAtResume := f.seedAtResume && !seedNow,
         baseline := seedNow || detectNow || f.baseline,
         detectorLog := f.detectorLog + (if seedNow then [SeedCall] else []) + (if detectNow then [DetectCall] else []),
         state := AfterDetections(f.state, dets, now, cooldown))
  }

  /**
    The detector runs only outside a pause window, only when armed and never
    while a reseed is owed, and then alone; otherwise the step at most seeds
    it, which it does on an unpaused stride frame that owes a reseed.
  */
  lemma GateStepDetectsSafely(f: Snapshot, now: real, frameIdx: nat, found: seq<Detection>, cooldown: real)
    ensures var r := GateStep(f, now, frameIdx, found, cooldown);
      && f.detectorLog <= r.detectorLog
      && var added := r.detectorLog[|f.detectorLog|..];
      && (DetectCall in added ==>
            && f.adjustPauseUntil <= now && f.state.armed && !f.seedAtResume
            && added == [DetectCall])
      && (DetectCall !in added ==> added == [] || added == [SeedCall])
      && (f.seedAtResume && !(now < f.adjustPauseUntil) && frameIdx % IMax(1, f.strideDyn) == 0 ==>
            added == [SeedCall] && r.baseline && !r.seedAtResume)
      && (added != [] ==> r.baseline)
  {
  }

  /** A detector without a baseline only takes the frame as its baseline: what it would have found is not reported. */
  lemma FirstDetectReportsNothing(f: Snapshot, now: real, frameIdx: nat, found: seq<Detection>, cooldown: real)
    requires !f.baseline
    ensures GateStep(f, now, frameIdx, found, cooldown) == GateStep(f, now, frameIdx, [], cooldown)
  {
  }

  /** The idle check at the start of a captured frame: after a gap longer than the idle limit the detector is reset and a reseed is owed. */
  function IdleReset(f: Snapshot, now: real, cfg: Config): Snapshot {
    if f.lastFrameTs != 0.0 && now - f.lastFrameTs > cfg.seedAfterIdleSec then
      f.(baseline := false, detectorLog := f.detectorLog + [ResetCall], seedAtResume := true)
    else f
  }

  /** The start of a captured frame in `_run`: the idle check, the frame time, then `_update_exposure_and_adapt`. */
  function BeginStep(f: Snapshot, strideBase: int, sample: Metrics, now: real, replies: Replies,
                     cfg: Config, caps: Capabilities): Snapshot
  {
    ExposureStep(IdleReset(f, now, cfg).(lastFrameTs := now), strideBase, sample, now, replies, cfg, caps).fields
  }

  /**
    One captured frame of `_run`: the start of the frame, the frame counter,
    `armed` (what the schedule says at this time of day), the stride mirror,
    and the detection step.
  */
  function FrameStep(f: Snapshot, strideBase: int, sample: Metrics, now: real, replies: Replies, found: seq<Detection>,
                     frameIdx: nat, armed: bool, cfg: Config, caps: Capabilities): Snapshot
  {
    var b := BeginStep(f, strideBase, sample, now, replies, cfg, caps);
    var m := b.(state := b.state.(totalFrames := b.state.totalFrames + 1, armed := armed,
                                  detectStride := b.strideDyn, hitThreshold := 0.0));
    GateStep(m, now, frameIdx, found, cfg.alertCooldownSec)
  }

  /** A frame is counted once, its time recorded, and the public state shows the schedule's verdict and the stride in use. */
  lemma FrameStepMirrors(f: Snapshot, strideBase: int, sample: Metrics, now: real, replies: Replies, found: seq<Detection>,
                         frameIdx: nat, armed: bool, cfg: Config, caps: Capabilities)
    ensures var r := FrameStep(f, strideBase, sample, now, replies, found, frameIdx, armed, cfg, caps);
      && r.state.totalFrames == f.state.totalFrames + 1 && r.lastFrameTs == now
      && r.state.armed == armed && r.state.detectStride == r.strideDyn && r.state.hitThreshold == 0.0
  {
    var f0 := IdleReset(f, now, cfg).(lastFrameTs := now);
    ExposureStepKeepsFrame(f0, strideBase, sample, now, replies, cfg, caps);
  }

  /** Whether the frame at `now` follows an idle gap longer than the limit. */
  predicate IdleGap(f: Snapshot, now: real, cfg: Config) {
    f.lastFrameTs != 0.0 && now - f.lastFrameTs > cfg.seedAfterIdleSec
  }

  /** The start of a frame makes no call on the detector but resets, at least one after an idle gap, which also leaves a reseed owed. */
  lemma BeginStepResets(f: Snapshot, strideBase: int, sample: Metrics, now: real, replies: Replies, cfg: Config, caps: Capabilities)
    ensures var f0 := IdleReset(f, now, cfg).(lastFrameTs := now);
      var n := Count(IdleGap(f, now, cfg)) + ExposureStep(f0, strideBase, sample, now, replies, cfg, caps).resets;
      var b := BeginStep(f, strideBase, sample, now, replies, cfg, caps);
      && b.detectorLog == f.detectorLog + Resets(n)
      && (IdleGap(f, now, cfg) ==> n > 0 && b.seedAtResume)
  {
    var f0 := IdleReset(f, now, cfg).(lastFrameTs := now);
    var a := ExposureStep(f0, strideBase, sample, now, replies, cfg, caps);
    ExposureStepResetsDetector(f0, strideBase, sample, now, replies, cfg, caps);
    assert f0.detectorLog == f.detectorLog + Resets(Count(IdleGap(f, now, cfg)));
    ResetsSnoc(f.detectorLog, Count(IdleGap(f, now, cfg)), a.resets);
    if IdleGap(f, now, cfg) {
      ExposureStepKeepsSeedDebt(f0, strideBase, sample, now, replies, cfg, caps);
    }
  }

  /** A history that grows by `n` resets and then by `gate` grows by exactly those calls. */
  lemma ResetsThenGate(c0: seq<DetectorCall>, n: nat, mid: seq<DetectorCall>, r: seq<DetectorCall>)
    requires mid == c0 + Resets(n) && mid <= r
    ensures c0 <= r && r[|c0|..] == Resets(n) + r[|mid|..]
    ensures DetectCall in r[|c0|..] <==> DetectCall in r[|mid|..]
    ensures n > 0 ==> ResetCall in r[|c0|..]
  {
    ResetsOnlyResets(n);
    assert r[|c0|..] == Resets(n) + r[|mid|..];
  }

  /**
    Within one frame the detector runs only when the schedule arms the
    service and no pause window is in force, and never on a frame that
    follows an idle gap, which instead resets it.
  */
  lemma FrameStepDetectsSafely(f: Snapshot, strideBase: int, sample: Metrics, now: real, replies: Replies, found: seq<Detection>,
                               frameIdx: nat, armed: bool, cfg: Config, caps: Capabilities)
    ensures var r := FrameStep(f, strideBase, sample, now, replies, found, frameIdx, armed, cfg, caps);
      && f.detectorLog <= r.detectorLog
      && var added := r.detectorLog[|f.detectorLog|..];
      && (DetectCall in added ==> armed && r.adjustPauseUntil <= now)
      && (IdleGap(f, now, cfg) ==> ResetCall in added && DetectCall !in added)
  {
    var f0 := IdleReset(f, now, cfg).(lastFrameTs := now);
    var n := Count(IdleGap(f, now, cfg)) + ExposureStep(f0, strideBase, sample, now, replies, cfg, caps).resets;
    BeginStepResets(f, strideBase, sample, now, replies, cfg, caps);
    var b := BeginStep(f, strideBase, sample, now, replies, cfg, caps);
    var m := b.(state := b.state.(totalFrames := b.state.totalFrames + 1, armed := armed,
                                  detectStride := b.strideDyn, hitThreshold := 0.0));
    GateStepDetectsSafely(m, now, frameIdx, found, cfg.alertCooldownSec);
    var r := GateStep(m, now, frameIdx, found, cfg.alertCooldownSec);
    ResetsThenGate(f.detectorLog, n, m.detectorLog, r.detectorLog);
  }

  /**
    In an under-exposed scene with every control at its limit, the coordinator
    as written re-opens a pause window on every frame after the last one has
    ended, and the detector never runs on that frame; the corrected coordinator
    leaves the frame alone, so the detector may run.
  */
  lemma SaturatedFailsafeBlocksDetection(f1: Snapshot, now: real, replies: Replies, frameIdx: nat, found: seq<Detection>,
                                         cooldown: real, cfg: Config, caps: Capabilities)
    requires Sane(cfg) && caps.supportsEv && cfg.motionAdjustPauseSec > 0.0 && f1.state.exposureState == Under
    requires f1.evBias == cfg.evMax && f1.gainValue == cfg.gainMax && f1.shutterUs == cfg.shutterMaxUs
    requires now - f1.evLastUpdate >= cfg.evUpdateIntervalSec
    requires !(now - f1.adjustLastTs >= cfg.motionAdjustPeriodSec) && !(now < f1.adjustPauseUntil)
    ensures var a := Adjust(f1, now, replies, cfg, caps);
      && a.resets > 0 && a.fields.adjustPauseUntil > now
      && var g := GateStep(a.fields, now, frameIdx, found, cooldown);
      && DetectCall !in g.detectorLog[|a.fields.detectorLog|..]
    ensures var d := CorrectedCoordinateStep(f1, Under, now, cfg, caps);
      !d.runAdjust && !d.reset && d.fields == f1
  {
    SaturatedControlsKeepFailsafeFiring(ControlsOf(f1), now, cfg, caps);
    AdjustOpensWindow(f1, now, replies, cfg, caps);
    var a := Adjust(f1, now, replies, cfg, caps);
    GateStepDetectsSafely(a.fields, now, frameIdx, found, cooldown);
  }

  /** The next frame deadline: one interval after the previous one, or one interval from now when the loop fell behind. */
  function PaceNext(next: real, now: real, interval: real): real {
    if next + interval < now then now + interval else next + interval
  }

  /** A frame is taken only when the deadline has come; the new deadline is at least one interval after the old and at most one interval ahead of now. */
  lemma PaceNextBounds(next: real, now: real, interval: real)
    requires next <= now && interval > 0.0
    ensures var r := PaceNext(next, now, interval);
      next + interval <= r && now <= r <= now + interval
  {
  }

  /** The seconds between frames, `1.0 / max(1, CAPTURE_FPS)`. */
  function FrameInterval(fps: int): (interval: real)
    ensures 0.0 < interval <= 1.0
  {
    1.0 / (IMax(1, fps) as real)
  }
}
