# Real-time surveillance: alert cooldown and region-of-interest model

A Dafny model of the logic core of a single-camera surveillance script. Each
iteration of its main loop captures a frame and slices a fixed region of
interest (ROI) out of it. An object detector runs on that sub-image. The
annotated sub-image is written back into the frame. The loop then decides
whether to raise an alert. An alert is a snapshot, an MQTT message and a
sound. Alerts are rate-limited by a cooldown.

Two pieces are modelled and proved:

- **The alert decision and cooldown machine.** An alert fires exactly when
  some detected class id is among the classes of interest and strictly more
  than `ALERT_COOLDOWN` seconds have passed since the stored
  `last_alert_time`. A fire stores a fresh clock reading. Anything else keeps
  the stored time. The decision exists twice in the source: as the standalone
  `check_alert_condition` (`AlertSystem.CheckAlertCondition`) and inlined in
  the main loop (`Surveillance.AlertTest`). A lemma shows the two agree.
- **ROI extract and composite.** A frame is a grid `seq<seq<P>>` over an
  abstract pixel type `P`. `Frames.Extract` is the NumPy slice
  `frame[y:y+h, x:x+w]` and `Frames.Composite` is the slice assignment.

The main loop is `Surveillance.Run` over a sequence of per-iteration inputs
(`Tick`). Its alert thread is `Surveillance.Decisions`, a fold of the alert
test that carries `last_alert_time` from one iteration to the next;
`Surveillance.Step` is the per-frame work of one iteration given its
decision. Each tick carries the captured frame, the detector's annotated
sub-image, the detected class ids, and two clock readings. `now` is the reading
used in the cooldown test. `fireTime` is the later reading that is stored on a
fire. The main loop reads the clock a second time after the snapshot, publish
and sound actions (final.py:125 and final.py:130). `check_alert_condition`
also reads it twice, the second time straight after the test with nothing in
between (alert_system.py:4 and alert_system.py:5). The only value threaded
between iterations is `last_alert_time`, which starts at 0. The end of the
sequence stands for the loop stopping.

Modules: `Frames` (grid geometry), `Settings` (the configured constants of
final.py), `RoiMonitoring` (roi_monitoring.py), `AlertSystem`
(alert_system.py), `Surveillance` (the main loop of final.py).

Two details of the code the model keeps:

- The stored timestamp is a second clock reading (final.py:130), not the
  reading used in the cooldown test (final.py:125).
- Only the audio action guards its own failure (final.py:62-67). A failing
  snapshot or publish is not caught by the loop. The model records the
  actions as performed and does not model their failures.

## Model

| member | source | states |
|---|---|---|
| Frames.Extract | final.py:107 | the ROI slice is an `h` by `w` grid whose pixel `(i, j)` is frame pixel `(y+i, x+j)` |
| Frames.Composite | final.py:114 | writing a sub-image back keeps every row's width; pixels inside the rectangle come from the sub-image at the offset position, every other pixel is the frame's own |
| Frames.CompositeChangesOnlyRect | final.py:114 | the write-back changes no pixel outside rows `y..y+h` and columns `x..x+w` |
| Frames.CompositeOfExtractIsIdentity | final.py:107-114 | extracting the ROI and writing the unmodified sub-image back gives the original frame exactly |
| Frames.ExtractOfCompositeIsPatch | final.py:107-114 | after writing a sub-image back, extracting the ROI returns exactly that sub-image |
| Frames.CompositeLastWriteWins | final.py:114 | two write-backs into the same rectangle equal the second one alone |
| Settings.RoiFitsConfiguredFrame | final.py:13-28 | the ROI (100, 100, 400, 400) lies inside every 1920x1080 frame: 500 <= 1920 and 500 <= 1080 |
| RoiMonitoring.DefineRoi | roi_monitoring.py:1-4 | always returns the coordinates (100, 100, 400, 400) and a 400x400 sub-image whose pixel `(i, j)` is frame pixel `(roi_y+i, roi_x+j)` of the returned coordinates |
| RoiMonitoring.DefineRoiMatchesLoopRoi | roi_monitoring.py:2-4 | the helper's rectangle and sub-image are the ones the main loop slices with its own constants |
| AlertSystem.HasInterest | alert_system.py:4 | the `any(...)` scan is true iff some element of `detected_ids` is in `classes_of_interest` |
| AlertSystem.HasInterestIffIntersecting | alert_system.py:4 | the scan is true iff the detected ids and the classes of interest share an element |
| AlertSystem.HasInterestOnlyMembership | alert_system.py:4 | order and duplicates in either list do not change the scan's result |
| AlertSystem.CheckAlertCondition | alert_system.py:3-6 | fires iff some detected id is of interest and `now - last_alert_time > cooldown`; a fire returns the second clock reading, a non-fire returns `last_alert_time` unchanged |
| AlertSystem.EmptyDetectionsNeverFire | alert_system.py:4-6 | no detections returns `(False, last_alert_time)` whatever the elapsed time |
| AlertSystem.DisjointDetectionsNeverFire | alert_system.py:4-6 | detections sharing nothing with the classes of interest never fire and keep the timestamp |
| AlertSystem.CooldownBoundaryDoesNotFire | alert_system.py:4 | elapsed time exactly equal to the cooldown does not fire |
| AlertSystem.FireStampNotBeforeCheck | alert_system.py:4-5 | with a clock that does not run backwards, a fire stores a time no earlier than the check and more than the cooldown after the previous stamp |
| AlertSystem.DecisionOnlyMembership | alert_system.py:4 | two detection lists with the same ids give the same fire decision and timestamp |
| AlertSystem.FireStartsCooldown | alert_system.py:4-5 | after a fire the machine is cooling down for `cooldown` seconds after the stored stamp |
| AlertSystem.ScenarioFireAfterCooldown | alert_system.py:3-6 | detections {0}, interest {0}, last 0, cooldown 30, now 31: fires and stores 31 |
| AlertSystem.ScenarioSuppressedWithinCooldown | alert_system.py:3-6 | same at now 29: no fire, timestamp stays 0 |
| AlertSystem.ScenarioNoOverlap | alert_system.py:3-6 | detections {1, 3} against interest {0, 2} never fire, at any time |
| AlertSystem.ScenarioSecondCallSuppressed | alert_system.py:3-6 | qualifying calls at 31 then 40 with cooldown 30: the first fires and stores 31, the second is suppressed |
| Surveillance.AlertTest | final.py:123-130 | an iteration fires iff some detected id is in `CLASSES_OF_INTEREST` and `now - last_alert_time > ALERT_COOLDOWN`; a fire stores the later clock reading, a non-fire keeps `last_alert_time` |
| Surveillance.AlertTestAgreesWithCheckAlertCondition | final.py:123-130 | the loop's inlined alert test gives the same decision and timestamp as `check_alert_condition` with the configured classes and cooldown |
| Surveillance.Decisions | final.py:95-130 | one decision per iteration; decision `k` is the alert test on input `k` against the timestamp left by decision `k-1`, or the start value for the first |
| Surveillance.DecisionAt | final.py:123-130 | decision `k` fires iff its detections are of interest and more than the cooldown has passed since the timestamp on entry, and leaves behind its stamp or that timestamp |
| Surveillance.Step | final.py:106-130 | the detector receives exactly the ROI pixels; the frame after write-back equals the captured frame outside the ROI and the annotated sub-image inside; a fire performs snapshot of that full frame, publish, sound, then the timestamp update, in that order; a non-fire performs none of them |
| Surveillance.Run | final.py:95-143 | one iteration per input; each fires and stores as the threaded decisions say; each frame after write-back, the one a fire snapshots, differs from its captured frame only inside the ROI; each fire's actions are snapshot, publish, sound, stamp |
| Surveillance.StoredIsLatestFire | final.py:124-130 | after iteration `i` the stored timestamp is the stamp of the most recent fire, or the start value if none fired |
| Surveillance.StoredNeverDecreases | final.py:125-130 | the stored timestamp never moves backwards over a run |
| Surveillance.FireNeedsCooldownSinceStart | final.py:125 | every fire of a run checks more than the cooldown after the starting timestamp |
| Surveillance.FirePairSeparated | final.py:125-130 | two fires `i < j` of a run are more than `ALERT_COOLDOWN` apart |
| Surveillance.FiresSeparated | final.py:125-130 | any two fires of a run are more than `ALERT_COOLDOWN` apart, from the earlier stamp to the later check and between the two stamps |
| Surveillance.AtMostOneFireWithinCooldown | final.py:124-130 | two alerts of a run whose checks are at most `ALERT_COOLDOWN` apart are the same alert |
| Surveillance.QuietDuringFirstCooldown | final.py:95-125 | no check at most `ALERT_COOLDOWN` after the starting timestamp fires |
| Surveillance.FirstQualifyingDetectionFires | final.py:95-130 | when nothing has fired yet, a qualifying detection checked more than `ALERT_COOLDOWN` after the starting timestamp fires |
| Surveillance.ProgramStart | final.py:95-130 | with `last_alert_time` starting at 0 and no earlier detection of interest, a qualifying check at clock time at most `ALERT_COOLDOWN` does not fire and one after it does |

## Left out

- Camera capture, video writing and display (`cv2.VideoCapture`, `VideoWriter`, `imshow`, `waitKey`): OpenCV I/O. The loop stopping is the end of the input sequence.
- YOLO inference and rendering: a foreign model call. The detected ids and the annotated sub-image are inputs of each iteration.
- Class ids as floats: `boxes.cls.tolist()` yields floats; ids are modelled as `int`.
- Time as floating point: `time.time()` is modelled as an exact `real`; rounding is not modelled.
- Time as a wall clock: `time.time()` counts seconds since the Unix epoch, so the running program never checks at clock time 30 or earlier. `Surveillance.QuietDuringFirstCooldown` and `Surveillance.ProgramStart`'s first half therefore describe only an abstract clock started at 0; the half of `Surveillance.ProgramStart` that fires, and `Surveillance.FirstQualifyingDetectionFires`, are what apply to the program.
- A wall clock that steps backwards: the separation lemmas (`StoredNeverDecreases`, `FireNeedsCooldownSinceStart`, `FirePairSeparated`, `FiresSeparated`, `AtMostOneFireWithinCooldown`, `QuietDuringFirstCooldown`) require each iteration's second clock reading to be no earlier than its first (`StampAfterCheck`).
- MQTT connection and publish, including the message text with the snapshot path: network I/O. `PublishAlert` only records that a publish happens.
- Audio playback: a foreign call. `PlayAlertSound` only records that it happens.
- Snapshot file naming and writing, and the detection log: file I/O and wall-clock formatting. The log writes the detector's whole label dictionary, not the detections.
- Failures of the alert actions: the model records each action as performed.
- Drawing the ROI outline with `cv2.rectangle` (final.py:133): library rendering. Its corner `(ROI_X+ROI_W, ROI_Y+ROI_H)` is inclusive and the line is 2 pixels thick, so it changes pixels just outside the half-open ROI, such as row 500 and column 500. The frame that is written to video and shown (final.py:136-139) is therefore not covered by the `SameOutside` guarantee, which holds for the frame after write-back, the one a fire snapshots. roi_monitoring.py's `draw_roi` also never imports `cv2`.
- camera_setup.py: not valid Python, and camera I/O in any case.
- Process exits and resource release: process control.
- Frames.Extract: requires the rectangle to lie inside the frame, because NumPy's silent clamping of slices that run past the edge is not modelled.
- Frames.Composite: requires the rectangle inside the frame and a sub-image of the rectangle's size; NumPy would clamp the slice or reject a mismatched shape.
- RoiMonitoring.DefineRoi: requires a frame of at least 500x500 pixels, because clamping of the slice on smaller frames is not modelled.
- Surveillance.Step: requires each captured frame to contain the configured ROI; the camera's resolution is not fixed by the source, and smaller frames would be clamped.
- Surveillance.Run: carries the same requirement for every iteration.
