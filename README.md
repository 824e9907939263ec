# utl-secam security camera: a Dafny model of the capture service core

This project models the processing core of a Raspberry Pi security camera service. It proves properties of that model with the Dafny verifier.

- **Worker loop.** `SecurityCamService._run` paces the loop to the capture rate, starts the camera and reads frames. On every stride-th frame it runs a motion detector, gated by pause windows and reseeds.
- **Exposure adaptation.** `_update_exposure_and_adapt` smooths the frame statistics with an EMA and classifies the scene as normal, under- or over-exposed, with hysteresis. It slows the detection stride and blends a contrast/brightness enhancement. It also coordinates camera-side adjustment windows and a failsafe. It drives three steppers for EV bias, analogue gain and shutter time.
- **Image folder.** `_enforce_retention` keeps only the newest `MAX_SAVED_IMAGES` `.jpg` files. `list_latest_images` lists the newest ones.
- **Detector post-processing.** This covers `_nms` (greedy non-maximum suppression with IoU threshold 0.4), the minimum-size filter and the keep-filter of `HumanDetector.detect`, the person-plus-face merge of `MultiHumanDetector`, and the `Detection` record.
- **Arming schedule.** This covers `_parse_hhmm`, `DailyWindow.contains`, the parsing in `DailySchedule.__init__` and `is_active_now`.

The modules follow the program's structure:

| module | file | contents |
|---|---|---|
| Wrappers | wrappers.dfy | `Option`, standing for Python's `None` and for a raised exception, and the integer `min`, `max` and `abs` every module shares |
| Settings | settings.dfy | the configuration values, the driver's capabilities and its per-call answers |
| PyText | pytext.dfy | the Python string operations the schedule parser relies on: `strip`, `split`, `split(sep, 1)` and `int` |
| Schedule | schedule.py → schedule.dfy | windows, parsing, the `DailySchedule` class |
| Nms, Detector | detector.py → nms.dfy, detector.dfy | NMS as a function with its properties, the `_nms` loop as a method, and the filters around it |
| Exposure | service.py → exposure.dfy | the pure decision rules: EMA, classification, stride, enhancement, stepper targets, failsafe tests |
| Motion | motion.dfy | a stand-in for the motion detector, recording the calls it receives |
| ServiceSteps | service.py → service_steps.dfy | each per-frame transition as a function of the service's fields, with its lemmas |
| Service | service.py → service.dfy | the class `SecurityCamService`: fields updated in place, methods proved equal to the ServiceSteps functions, and the `_run` loop |
| Retention | service.py → retention.dfy | `_enforce_retention` as a method with a loop, and `list_latest_images` |

Where the system's design description and its code disagree, the model follows the code. The failsafe is modelled as the code writes it too; a corrected failsafe is proved beside it, and "## Findings" below explains why. The differences from the design description:

- **Leaving "under".** The code stays "under" when the low-clip average exceeds its threshold *or* the mean is below the exit threshold (service.py:302-303), not on the mean alone.
- **Enhancement hold.** The hold deadline is extended on every enhancing frame with `max`, not only on a change of state.
- **Order of stages.** The camera-control steppers run inside the exposure step, before the gated detection, not after it.
- **Area and intersection.** NMS measures area and intersection with the inclusive-pixel `+ 1` convention of the code.

## Model

| member | source | states |
|---|---|---|
| Schedule.ParseHHMM | security_cam/schedule.py:14-24 | text without ':' cannot be unpacked into hours and minutes, so it is rejected (None stands for the exception) |
| Schedule.ParseFormatHHMM | security_cam/schedule.py:14-24 | every minute of the day written as "HH:MM" parses back to that minute |
| Schedule.SecondsFieldRejected | security_cam/schedule.py:23-24 | "HH:MM:SS" is rejected: splitting at the first ':' leaves "MM:SS", which `int` refuses |
| Schedule.HourOutOfRangeRejected | security_cam/schedule.py:23-24 | any text before the first ':' that `int` reads as an hour outside 0..23 is rejected, whatever follows, as `time()` raises |
| Schedule.MinuteOutOfRangeRejected | security_cam/schedule.py:23-24 | any text after the first ':' that `int` reads as a minute outside 0..59 is rejected, whatever the hour, as `time()` raises |
| Schedule.OutOfRangeExamples | security_cam/schedule.py:23-24 | "24:00" and "07:60" are rejected |
| Schedule.ContainsIffWithinArc | security_cam/schedule.py:37-49 | a window holds a time of day exactly when that time lies less than the window's length past its start on the 24-hour circle, for both plain and wrapping windows |
| Schedule.EqualEndsCoverWholeDay | security_cam/schedule.py:46-49 | a window whose end equals its start takes the wrapping branch and holds every time of day |
| Schedule.ParseWindow | security_cam/schedule.py:71-73 | a fragment that strips to nothing is skipped |
| Schedule.NoDashRejected | security_cam/schedule.py:74-79 | a fragment without '-' fails to unpack and is skipped |
| Schedule.ParseFormatWindow | security_cam/schedule.py:74-76 | every window written as "HH:MM-HH:MM" parses back to itself |
| Schedule.ExtraDashRejected | security_cam/schedule.py:75-76 | only the first '-' separates start from end, so a third time ends up in the end half and the fragment is skipped |
| Schedule.CollectParsed | security_cam/schedule.py:70-79 | the loop over the fragments keeps exactly the windows that parse, in the order given |
| Schedule.UnparsableFragmentSkipped | security_cam/schedule.py:72-79 | a fragment that fails to parse contributes nothing, and the windows around it keep their order |
| Schedule.BlankSpecHasNoWindows | security_cam/schedule.py:66-69 | an empty or whitespace-only `spec` yields no window |
| Schedule.AnyContains | security_cam/schedule.py:90 | `any(w.contains(t) ...)` is true exactly when some window holds t |
| Schedule.DailySchedule.constructor | security_cam/schedule.py:59-79 | the windows are those parsed from the stripped spec, none for a blank `spec` |
| Schedule.DailySchedule.IsActiveNow | security_cam/schedule.py:81-90 | armed exactly when no window was parsed or some window holds the time of day |
| PyText.StripEmptyIffAllSpace | security_cam/schedule.py:66-67 | `strip()` gives the empty string exactly when every character is whitespace |
| PyText.StripEdges | security_cam/schedule.py:71 | what `strip()` keeps neither starts nor ends with whitespace |
| PyText.SplitOnceSpec | security_cam/schedule.py:23 | `s.split(sep, 1)` unpacks into the text before and after the first separator, and fails without one |
| PyText.SplitOnceFirst | security_cam/schedule.py:75 | text with a separator-free prefix splits right after that prefix |
| PyText.JoinSplit | security_cam/schedule.py:70 | `spec.split(",")` loses nothing: joining the pieces gives the spec back |
| PyText.SplitPiecesOmitSep | security_cam/schedule.py:70 | no piece of the split holds a comma |
| PyText.ParseFormatNat | security_cam/schedule.py:24 | `int(str(n)) == n` for every natural number |
| PyText.StrayCharNotInt | security_cam/schedule.py:24 | `int` rejects text holding a character that is neither an ASCII digit nor '_' |
| Nms.SuppressesSymmetric | security_cam/detector.py:62-70 | the IoU test does not depend on which box is kept |
| Nms.DisjointNotSuppressed | security_cam/detector.py:62-70 | boxes that do not touch never suppress each other, whatever the threshold |
| Nms.SelfSuppressed | security_cam/detector.py:62-70 | a box suppresses an exact duplicate of itself under any threshold below 1 |
| Nms.Survivors | security_cam/detector.py:62-71 | `order[inds + 1]` keeps exactly the remaining indices that the kept box does not suppress |
| Nms.ScoreOrderSorted | security_cam/detector.py:54 | `argsort()[::-1]` visits each index exactly once, from the highest score down |
| Nms.ScoreOrderHeadMax | security_cam/detector.py:54-57 | the first index visited has the highest score |
| Nms.GreedyKeepPairwise | security_cam/detector.py:56-71 | the greedy loop never keeps a box that an earlier kept box suppresses |
| Nms.GreedyKeepCovers | security_cam/detector.py:56-71 | every box the greedy loop drops is suppressed by a kept box of at least its score |
| Nms.NmsKeep | security_cam/detector.py:46-72 | no boxes give no indices; otherwise at least one valid index is kept |
| Nms.NmsKeepSorted | security_cam/detector.py:54-58 | kept indices are distinct and listed from the highest score down |
| Nms.NmsKeepHeadMax | security_cam/detector.py:56-58 | the first kept index has the highest score of all |
| Nms.NmsKeepPairwise | security_cam/detector.py:56-71 | any two kept boxes have IoU at most the threshold |
| Nms.NmsKeepCovers | security_cam/detector.py:56-71 | every box not kept has IoU above the threshold with a kept box scoring at least as high |
| Nms.NonMaxSuppression | security_cam/detector.py:32-72 | the `_nms` loop returns exactly the greedy suppression of the boxes in score order |
| Detector.KeptIndices | security_cam/detector.py:138 | the indices of `range(n)` found in `keep`, strictly increasing |
| Detector.SelectKept | security_cam/detector.py:138 | `[d for i, d in enumerate(ds) if i in keep]` lists the kept detections in input order |
| Detector.SelectKeptMembers | security_cam/detector.py:138 | every selected detection comes from the input, and a kept index within range makes the result non-empty |
| Detector.SelectKeptHas | security_cam/detector.py:138 | a detection whose index is kept is selected |
| Detector.MinSize | security_cam/detector.py:127-128 | the minimum size is the override when one is given, the configured size otherwise |
| Detector.SizeFiltered | security_cam/detector.py:119-131 | the loop collects exactly the large-enough HOG boxes, each as a "person" detection with its weight |
| Detector.DetectPersons | security_cam/detector.py:118-139 | the filtering half of `HumanDetector.detect` returns the size-filtered boxes after NMS and the keep-filter |
| Detector.PersonDetectionsFiltered | security_cam/detector.py:127-138 | every returned person detection is a large-enough HOG box labelled "person" |
| Detector.SelectNmsPairwise | security_cam/detector.py:134-138 | after NMS and the keep-filter, no two returned detections overlap by more than IoU 0.4 |
| Detector.SelectNmsCovers | security_cam/detector.py:134-138 | every detection dropped overlaps a returned one of at least its score by more than IoU 0.4 |
| Detector.MergeDetections | security_cam/detector.py:203-218 | every merged detection is a person or face detection that was produced |
| Detector.MergeSuppressesAcrossKinds | security_cam/detector.py:203-218 | NMS runs over persons and faces together: no two merged detections of either kind overlap above IoU 0.4, and every dropped person or face overlaps a merged one of at least its score |
| Detector.MergeEmptyIffNoInput | security_cam/detector.py:212-218 | the merge is empty exactly when neither detector produced anything |
| Exposure.EmaBetween | security_cam/service.py:294-298 | with alpha in [0, 1], each average lands between its old value and the sample |
| Exposure.EmaInRange | security_cam/service.py:294-298 | averages of values within bounds stay within those bounds |
| Exposure.SmoothMetricsInRange | security_cam/service.py:294-298 | the smoothed mean stays in [0, 255] and the clip fractions in [0, 1] |
| Exposure.Classify | security_cam/service.py:300-312 | a classified frame is always normal, under or over |
| Exposure.OverTakesPriority | security_cam/service.py:306-308 | "over" results exactly when the high-clip or bright test fires, whatever the dark tests say |
| Exposure.UnderExitsAtExitThreshold | security_cam/service.py:302-303 | coming from "under", the scene stays "under" exactly while low clipping persists or the mean is below the exit threshold |
| Exposure.UnderEntersAtDarkThreshold | security_cam/service.py:304-305 | from any other state, "under" is entered exactly on low clipping or a mean below the entry threshold |
| Exposure.BandKeepsState | security_cam/service.py:300-312 | inside the hysteresis band the state never flips: "under" stays "under" and "normal" stays "normal" |
| Exposure.HysteresisExample | security_cam/service.py:300-312 | with entry 40 and exit 50, means 30, 45, 55 classify as under, under, normal |
| Exposure.AdaptedStride | security_cam/service.py:319-325 | the stride is at least 1, and is the base stride outside under/over |
| Exposure.StrideNotFasterWhenScaled | security_cam/service.py:322 | a scale of at least 1 never makes detection more frequent |
| Exposure.EnhanceStep | security_cam/service.py:327-346 | the hold deadline extends to `now + hold` when enhancing and is otherwise kept |
| Exposure.HoldNeverDecreases | security_cam/service.py:333-337 | the hold deadline never moves backwards |
| Exposure.TargetAfterEnhancing | security_cam/service.py:338-344 | outside an enhancing state the target is kept before the hold deadline and reset to identity from then on |
| Exposure.EnhanceNoOvershoot | security_cam/service.py:343-346 | with blend in [0, 1], alpha and beta each land between their old value and the target |
| Exposure.BlendGap | security_cam/service.py:345-346 | after n frames the remaining gap to a fixed target is the initial gap times (1 - blend)^n |
| Exposure.BlendApproaches | security_cam/service.py:345-346 | repeated blending never moves away from a fixed target |
| Exposure.StepTowardNoCrossing | security_cam/service.py:429-435 | the "normal" return step never crosses the resting value and closes the gap by the step or entirely |
| Exposure.EvTargetInRange | security_cam/service.py:424-437 | every EV target stays in [EV_MIN, EV_MAX], and "normal" steps toward 0 |
| Exposure.GainTargetInRange | security_cam/service.py:467-479 | every gain target stays in [GAIN_MIN, GAIN_MAX], and "normal" steps toward 1.0, not toward GAIN_MIN |
| Exposure.ShutterTargetsInRange | security_cam/service.py:513-531 | both shutter targets stay in [SHUTTER_BASE_US, SHUTTER_MAX_US] |
| Exposure.FailsafeFiresNarrowsAsWritten | security_cam/service.py:368-394 | the corrected failsafe fires only where the one as written fires |
| Exposure.SaturatedControlsKeepFailsafeFiring | security_cam/service.py:368-394 | with every control at its limit in an under-exposed scene, the failsafe as written fires though no stepper can move, and the corrected one does not |
| ServiceSteps.EvStepEffect | security_cam/service.py:407-450 | unless enabled, supported, due, with a target for the state differing by at least 1e-6, and accepted, nothing changes but the record of the call; otherwise the bias is the target, stamped, and a pause window opens |
| ServiceSteps.GainStepEffect | security_cam/service.py:452-491 | the same discipline for the gain |
| ServiceSteps.ShutterStepDirection | security_cam/service.py:493-549 | "under" only lengthens the shutter, "normal"/"over" only shorten it, and it stays within [base, max] |
| ServiceSteps.ShutterManualEndsNearBase | security_cam/service.py:542-546 | manual exposure ends only outside "under", within one return step of base, after an accepted `set_auto_exposure(True)` |
| ServiceSteps.ShutterStampOnChange | security_cam/service.py:548-549 | the shutter time stamp moves only when a shutter time was accepted, and then to `now` |
| ServiceSteps.EvStepFrame | security_cam/service.py:441-450 | the EV stepper touches only its own control, the pause deadline, the reseed debt and the detector; it resets the detector once per accepted change and only appends to the camera log |
| ServiceSteps.GainStepFrame | security_cam/service.py:483-491 | the gain stepper keeps the same frame, and changes nothing when it does not call the camera |
| ServiceSteps.ShutterStepFrame | security_cam/service.py:509-549 | the shutter stepper keeps the same frame and leaves EV and gain alone |
| ServiceSteps.ShutterMoveFrame | security_cam/service.py:513-541 | the shutter change keeps the stepper discipline |
| ServiceSteps.ReenableAutoFrame | security_cam/service.py:542-546 | the return to automatic exposure touches only the camera log and the manual flag |
| ServiceSteps.AdjustControlsFrame | security_cam/service.py:395-401 | through the three steppers, the deadline and debt are those of a window exactly when some stepper reset the detector |
| ServiceSteps.AdjustControlsResets | security_cam/service.py:395-401 | through the three steppers the detector receives one reset per accepted change and nothing else |
| ServiceSteps.Measure | security_cam/service.py:294-346 | the reported exposure state is the classification of the new averages from the previous state |
| ServiceSteps.ExposureStepOff | security_cam/service.py:284-287 | with adaptation off the state reads "off", the stride is the base one, and nothing else changes |
| ServiceSteps.ExposureStepAdapts | security_cam/service.py:282-346 | with adaptation on, the averages, classification, stride, enhancement and periodic timestamp follow their rules, and the public state mirrors the controls |
| ServiceSteps.AdjustKeepsMeasures | security_cam/service.py:348-405 | the adjusting half never touches averages, stride or enhancement, and mirrors the controls into the public state |
| ServiceSteps.AdjustOpensWindow | security_cam/service.py:353-394 | a periodic window, or a failsafe window as the code opens it (an under/over scene with some supported control never updated or past its interval), pauses detection until `now + pause`, owes a reseed and resets the detector |
| ServiceSteps.FailsafeMakesProgress | security_cam/service.py:368-401 | with the corrected failsafe, a window opens only when a stepper then calls the camera |
| ServiceSteps.CorrectedCoordinatorNarrows | security_cam/service.py:353-394 | the corrected coordinator decides as the code does whenever it runs the steppers and whenever the failsafe as written is quiet |
| ServiceSteps.QuietFrameKeepsControls | security_cam/service.py:362-401 | a frame outside every window on which the failsafe as written does not fire leaves the controls, deadline, debt, detector and camera alone |
| ServiceSteps.AdjustResetsDetector | security_cam/service.py:348-401 | the adjusting half resets the detector once per window opened and per accepted change, and makes no other call on it |
| ServiceSteps.ExposureStepResetsDetector | security_cam/service.py:282-405 | the whole exposure step makes no call on the detector but those resets |
| ServiceSteps.ExposureStepKeepsFrame | security_cam/service.py:282-405 | the exposure step leaves the frame time, the frame counter and the armed flag alone |
| ServiceSteps.ExposureStepKeepsSeedDebt | security_cam/service.py:348-401 | a reseed already owed stays owed through the exposure step |
| ServiceSteps.EvStepKeepsRanges | security_cam/service.py:424-428 | the EV stepper keeps every control within its limits |
| ServiceSteps.GainStepKeepsRanges | security_cam/service.py:467-471 | the gain stepper keeps every control within its limits |
| ServiceSteps.ShutterStepKeepsRanges | security_cam/service.py:513-531 | the shutter stepper keeps every control within its limits |
| ServiceSteps.AdjustKeepsRanges | security_cam/service.py:348-405 | the adjusting half keeps every control within its limits |
| ServiceSteps.ExposureStepKeepsRanges | security_cam/service.py:282-405 | the exposure step keeps controls and averages within range, given in-range frame statistics |
| ServiceSteps.CountKind | security_cam/service.py:259-260 | a label's count is positive exactly when some detection carries it, and is at most the number of detections |
| ServiceSteps.CountTwoKinds | security_cam/service.py:259-260 | the person and face counts together never exceed the number of detections |
| ServiceSteps.DetectionsReported | security_cam/service.py:255-268 | a non-empty result marks the service detecting at `now` and lists each label exactly when a detection carries it |
| ServiceSteps.CooldownClearsReport | security_cam/service.py:271-277 | an empty result clears the report only once the cooldown has passed, and changes nothing before |
| ServiceSteps.GateStepDetectsSafely | security_cam/service.py:232-254 | the detector runs only outside a pause window, when armed and with no reseed owed; an owed reseed is done on the first unpaused stride frame instead; a seed or a detect leaves the detector with a baseline |
| ServiceSteps.FirstDetectReportsNothing | security_cam/service.py:246-278 | a detector without a baseline only stores the frame: the step is the same as if it had found nothing |
| ServiceSteps.BeginStepResets | security_cam/service.py:165-210 | the start of a frame makes no call on the detector but resets; after an idle gap there is at least one and a reseed is owed |
| ServiceSteps.FrameStepMirrors | security_cam/service.py:213-230 | a processed frame is counted once, its time recorded, and the public state shows the schedule's verdict, the stride in use and a zero hit threshold |
| ServiceSteps.FrameStepDetectsSafely | security_cam/service.py:165-254 | within one frame the detector runs only when the schedule arms the service and no pause window is in force, and never after an idle gap, which resets it instead |
| ServiceSteps.SaturatedFailsafeBlocksDetection | security_cam/service.py:368-394 | in the exposure step as written, saturated controls in an under-exposed scene re-open a pause window once the last one ends, so the detector does not run; the corrected coordinator leaves the frame alone |
| ServiceSteps.PaceNextBounds | security_cam/service.py:144-151 | the next deadline is at least one interval after the old one and at most one interval ahead of now |
| ServiceSteps.FrameInterval | security_cam/service.py:138 | the frame interval lies in (0, 1] seconds |
| Service.SecurityCamService.constructor | security_cam/service.py:43-95 | every field takes its initial value, the schedule is parsed from `ACTIVE_WINDOWS`, and the public state mirrors the controls |
| Service.SecurityCamService.OpenPauseWindow | security_cam/service.py:446-448 | detection pauses until `now + pause`, the detector is reset and a reseed is owed |
| Service.SecurityCamService.MaybeAdjustEv | security_cam/service.py:407-450 | `_maybe_adjust_ev` in place: the fields become those of the EV step, within range |
| Service.SecurityCamService.MaybeAdjustGain | security_cam/service.py:452-491 | `_maybe_adjust_gain` in place: the fields become those of the gain step, within range |
| Service.SecurityCamService.MaybeAdjustShutter | security_cam/service.py:493-549 | `_maybe_adjust_shutter` in place: the fields become those of the shutter step, within range |
| Service.SecurityCamService.MoveShutter | security_cam/service.py:513-541 | the shutter change in place, as the shutter move function describes it |
| Service.SecurityCamService.ReenableAutoExposure | security_cam/service.py:542-546 | the return to automatic exposure in place |
| Service.SecurityCamService.Coordinate | security_cam/service.py:348-394 | the coordinator in place, with the failsafe as written: the fields and the run decision are those of the coordinator step |
| Service.SecurityCamService.MeasureFrame | security_cam/service.py:288-346 | averages, classification, stride and enhancement in place, with the averages kept in range |
| Service.SecurityCamService.AdjustFrame | security_cam/service.py:348-405 | coordinator, steppers and control mirror in place |
| Service.SecurityCamService.UpdateExposureAndAdapt | security_cam/service.py:282-405 | `_update_exposure_and_adapt` in place: the fields become those of the exposure step, with the invariant kept |
| Motion.MotionDetector.Detect | security_cam/service.py:246-250 | `detect` makes the frame the baseline; it reports what it found only when it already held a baseline, and nothing on the first call after construction or `reset` |
| Service.SecurityCamService.GateDetection | security_cam/service.py:231-278 | the detection step in place; a `detect` call is recorded with the deadline then in force, and none is made while a reseed is owed |
| Service.SecurityCamService.BeginFrame | security_cam/service.py:165-210 | the start of a frame in place: the new fields are those of the idle check, the frame time and the exposure step |
| Service.SecurityCamService.ProcessFrame | security_cam/service.py:165-280 | one captured frame in place: the new fields are those of the frame step, with `armed` set by the schedule at this time of day; the detector runs only while armed, and not after an idle gap |
| Service.PassProcessesDueFrames | security_cam/service.py:141-167 | a pass processes a frame exactly when its deadline has come, the camera has started, and a frame was read; that frame is counted once and armed by the schedule |
| Service.PassesCountFrames | security_cam/service.py:137-280 | over any run of passes, the frame counter and the public frame count advance together, at most once per pass |
| Service.SecurityCamService.Run | security_cam/service.py:135-280 | over any run of loop passes, the final fields and frame counter are those of the passes in order; the controls stay in range and no `detect` call falls inside a pause window |
| Retention.LowerChar | security_cam/service.py:606 | `lower()` maps the ASCII capitals to small letters and leaves every other character alone |
| Retention.JpgAnyCase | security_cam/service.py:606 | the `.jpg` test ignores letter case and rejects `.jpeg` and `.png` |
| Retention.JpgFiles | security_cam/service.py:603-607 | exactly the listing's `.jpg` entries are kept, without duplicates added |
| Retention.Paths | security_cam/service.py:604 | each path is `os.path.join(folder, name)` of the entry at the same position |
| Retention.SortByMtime | security_cam/service.py:612 | the sort is a permutation of the files |
| Retention.SortByMtimeSorted | security_cam/service.py:612 | the sort orders the files by modification time, oldest first or newest first |
| Retention.RetentionFolder | security_cam/service.py:601 | `folder or SAVE_DIR`: the folder given, unless it is None or empty |
| Retention.RetentionPartition | security_cam/service.py:610-614 | nothing is removed while at most `MAX_SAVED_IMAGES` files exist; otherwise `len - MAX_SAVED_IMAGES` are removed, at most that many survive, and removed plus kept are exactly the files |
| Retention.RetentionVictimsOldest | security_cam/service.py:612-614 | no removed file is newer than any kept one |
| Retention.EnforceRetention | security_cam/service.py:599-618 | a missing folder removes nothing; otherwise the paths handed to `os.remove` are those of the oldest surplus `.jpg` files, oldest first |
| Retention.RemoveOldest | security_cam/service.py:614-618 | the removal loop hands `os.remove` the first n paths in order, a failed removal not stopping it |
| Retention.PrefixLength | security_cam/service.py:132 | `files[:limit]` keeps `min(limit, len)` files, and for a negative limit all but the last `-limit` |
| Retention.LatestImages | security_cam/service.py:121-132 | one path per reported entry |
| Retention.LatestEntriesFromListing | security_cam/service.py:123-132 | a missing folder gives no images; otherwise as many `.jpg` entries of the listing as the slice allows |
| Retention.NewestPrefix | security_cam/service.py:131-132 | a prefix of the newest-first sort is newest first, and nothing left out is newer than anything in it |
| Retention.LatestEntriesNewest | security_cam/service.py:121-132 | the latest images come newest first, and no `.jpg` file left out is newer than a reported one |

## Left out

- Image processing is not modelled: grey conversion, rotation, NOIR mono conversion, applying the enhancement with `convertScaleAbs`, and HOG and Haar detection. A frame enters the model as its mean and clip fractions; HOG boxes and face detections are inputs.
- Detector.DetectPersons: the 0.75 downscale of frames wider than 640 pixels, and the `int(x / 0.75)` rescaling of the boxes, are not modelled. The boxes arrive in frame coordinates.
- The motion detector's implementation is not part of this model: service.py imports `MotionDetector` from `security_cam.detector` (security_cam/service.py:14), and its definition is not among the files modelled here. `Motion.MotionDetector` is a stand-in that records `reset`, `seed` and `detect` calls and whether it holds a baseline. It follows the detector's documented contract: `detect` always leaves a baseline, and without one it only stores the frame and reports nothing. What `detect` reports when it has a baseline is an input. Its calls never raise, so the `try` blocks around them always complete.
- Clocks are parameters. All `time.time()` readings within one frame are collapsed into one `now`. The time of day that `datetime.now()` gives the schedule is passed in.
- `time.sleep` and `_stop` are not modelled. `Run` covers a finite sequence of loop passes; whether the camera starts and whether it returns a frame are inputs to each pass.
- Threads, locks, `start`, `stop`, `get_latest_frame`, `get_status` and the copy of the latest frame are left out.
- The camera driver is an input. `hasattr(camera, "set_X")` and `supports_X()` are merged into one capability flag per control. The answers to `set_ev`, `set_gain`, `set_shutter` and `set_auto_exposure(True)` are inputs per frame.
- The detector backend is always "motion", the only value the service sets.
- `_maybe_save_frame` is not modelled: annotation, file names, `imwrite`, `saved_images_count` and the save interval. Its calls to `_enforce_retention` are represented by that method on its own.
- Floating point is modelled as exact reals: rounding, NaN and infinity are left out. The IoU of a zero-area union is treated as suppressing, which is what NaN and infinity do in the `<=` test.
- Nms.ScoreOrder: numpy's order for equal scores is unspecified; the model puts the later index first.
- Retention.SortByMtime: Python's sort is stable and so is the model, but no lemma states the order among equal times.
- Retention.EnforceRetention: a failing `os.remove` is ignored, as in the code. The result lists the paths handed to `os.remove`; whether they were actually deleted is not modelled.
- Retention.LatestEntries: modification times come with the listing, so a file vanishing between `listdir` and `getmtime` is not modelled. Only a missing folder is modelled, as None; other `listdir` errors propagate in the code and are left out.
- PyText.ParseInt: only the ASCII digits '0'..'9' are read. CPython's `int` also accepts every other Unicode decimal digit, so a window written with, say, full-width digits parses in the program and is skipped in the model.
- StrayCharNotInt: it counts any character other than an ASCII digit or '_' as stray. For CPython this is false when that character is a decimal digit of another script, which `int` reads as a number.
- Retention.LowerChar: `str.lower()` is modelled for ASCII only; Unicode case mapping is left out.
- ServiceSteps.ShutterStampOnChange: its second clause, that the stamp stays when the shutter time stays, is stated only for a positive return step. With a return step of 0 the code can accept an unchanged shutter time and still stamp it.
- Integer widths are unbounded: Python integers do not wrap, and the shutter times, strides and box coordinates are exact.

## Findings

| source | as written | input that shows it | evidently intended | confidence | as-written member | corrected member |
|---|---|---|---|---|---|---|
| security_cam/service.py:368-394 | The failsafe opens a pause window when the scene is under- or over-exposed and some supported control is due. It does not check `*_ADAPT_ENABLE`, or whether that control's stepper would change anything. | A night scene classified "under", with EV at `AE_EV_MAX`, gain at `GAIN_MAX` and shutter at `SHUTTER_MAX_US`. `supports_ev()` is true, and the EV interval has passed since the last EV change. No periodic window is due and the last pause has ended. | The failsafe fires only when a stepper would actually call the camera. Otherwise a scene that stays dark with saturated controls re-opens a pause window and resets the detector every time the previous one ends, so `detect` never runs and a dark scene is never watched. | not executed | ServiceSteps.CoordinateStep (the coordinator the whole service model runs), Exposure.SaturatedControlsKeepFailsafeFiring, ServiceSteps.SaturatedFailsafeBlocksDetection | ServiceSteps.CorrectedCoordinateStep (with Exposure.FailsafeFires), ServiceSteps.FailsafeMakesProgress, ServiceSteps.CorrectedCoordinatorNarrows, Exposure.FailsafeFiresNarrowsAsWritten |
