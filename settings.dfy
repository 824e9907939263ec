/**
  The configuration values the service reads. Each one comes from an environment
  variable in the original; here they are plain parameters of the model.
*/
module Settings {

  datatype Config = Config(
    captureFps: int,
    detectEveryNFrames: int,
    seedAfterIdleSec: real,
    alertCooldownSec: real,
    maxSavedImages: int,
    // Exposure analysis
    adaptiveSensitivity: bool,
    expEmaAlpha: real,
    expDarkMean: real,
    expDarkMeanExit: real,
    expBrightMean: real,
    expLowClipFrac: real,
    expHighClipFrac: real,
    adaptDetectStrideScale: real,
    // Software enhancement
    enhanceOnUnder: bool,
    enhanceUnderAlpha: real,
    enhanceUnderBeta: real,
    enhanceOnOver: bool,
    enhanceOverAlpha: real,
    enhanceOverBeta: real,
    enhanceBlendAlpha: real,
    enhanceHoldSec: real,
    // Adjustment windows of the motion backend
    motionAdjustPeriodSec: real,
    motionAdjustPauseSec: real,
    // Exposure bias
    evAdaptEnable: bool,
    evMin: real,
    evMax: real,
    evStep: real,
    evReturnStep: real,
    evUpdateIntervalSec: real,
    // Analogue gain
    gainAdaptEnable: bool,
    gainMin: real,
    gainMax: real,
    gainStep: real,
    gainReturnStep: real,
    gainUpdateIntervalSec: real,
    // Shutter time in microseconds
    shutterAdaptEnable: bool,
    shutterBaseUs: int,
    shutterMaxUs: int,
    shutterStepUs: int,
    shutterReturnStepUs: int,
    shutterUpdateIntervalSec: real
  )

  /**
    The settings under which the controls and averages have a meaningful range:
    smoothing and blend factors in [0, 1], step sizes not negative, and each
    control's resting value (EV 0, gain 1, the base shutter time) inside its limits.
  */
  predicate Sane(c: Config) {
    && 0.0 <= c.expEmaAlpha <= 1.0
    && 0.0 <= c.enhanceBlendAlpha <= 1.0
    && c.evMin <= 0.0 <= c.evMax && c.evStep >= 0.0 && c.evReturnStep >= 0.0
    && c.gainMin <= 1.0 <= c.gainMax && c.gainStep >= 0.0 && c.gainReturnStep >= 0.0
    && c.shutterBaseUs <= c.shutterMaxUs && c.shutterStepUs >= 0 && c.shutterReturnStepUs >= 0
  }

  /**
    What the camera driver offers: whether it implements and supports EV bias,
    analogue gain and manual shutter control, and whether it can switch
    automatic exposure back on.
  */
  datatype Capabilities = Capabilities(supportsEv: bool, supportsGain: bool, supportsShutter: bool, hasAutoExposure: bool)

  /** The driver's answers this frame: whether `set_ev`, `set_gain`, `set_shutter` and `set_auto_exposure(True)` succeed if called. */
  datatype Replies = Replies(evAccepted: bool, gainAccepted: bool, shutterAccepted: bool, autoExposureAccepted: bool)
}
