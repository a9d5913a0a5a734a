# argos-presence: the debounced presence state machine, in Dafny

This project models the core of argos-presence's `PresenceDetector`
(presence.py). The detector turns a per-frame motion signal into a stable
occupancy status (0 = absent, 1 = present) and publishes each change to
MQTT. Two windows debounce it:

- **Warmup, while absent.** Motion seen within `presence_cool_down_secs` of
  the last absence is not trusted on its own. If person detection is on,
  the remote classifier must find a person. If it is off, the motion
  detector is asked to reset its background model instead.
- **Cooldown, while present.** Stillness keeps the status present until
  `presence_idle_secs` have passed since the last motion. During that time
  the classifier is asked on every `argos_detection_frequency_frames`-th
  frame, and a person found counts as motion.

Modules:

- `Wrappers`: the `Option` type.
- `Classifier`: how `detect_person` picks the first `'person'` box out of the
  classifier's answer, and maps a failed request or an answer without a
  person to "none" (the source's `False`).
- `PresenceSpec`: the state machine as pure functions.
  - `Transition` holds the branches of `detect_presence`. `Publish` is the
    MQTT publish at its end. `Step` is one whole call.
  - `Run` is the frame loop of `detect_motion`. Frame numbers start at 1 and
    go up by one per frame. A `ZeroDivisionError` ends the run, as it ends
    the detection thread.
  - `Initial` is the state set up by `__init__`.
  - The lemmas state the transition rules and the properties of runs.
- `Presence`: the class `PresenceDetector`.
  - Its fields are the ones `detect_presence` updates in place, plus a log
    of MQTT publishes.
  - `DetectPresence` is written as the source writes it, with in-place
    updates. It is proved equal to `Step`.
  - `DetectMotion` is the frame loop. It is proved equal to `Run`.

Modelling choices:

- Time is an integer count of microseconds, the resolution of Python's
  `datetime`. The windows are whole seconds. So
  `(now - ts).total_seconds() <= w` becomes `now - ts <= w * 1000000`
  (`WithinSecs`).
- Each call takes one `now`. The clock is not assumed to be monotonic,
  because the source does not assume it.
- The motion detector's verdict (`motion is not None`) is an input.
- The classifier is an oracle: each frame carries the answer the classifier
  would give. `None` means the HTTP request raised. The outcome of
  `DetectPresence` records whether the classifier was asked:
  - `NotAsked` is the source's `None`;
  - `Asked(found)` is the value `detect_person` returned;
  - `ZeroDivisionError` means the throttle test `total_frames % freq`
    raised because the frequency is 0.
- A frequency of 0 can be configured at run time, so it is modelled as the
  exception the source raises, not excluded by a precondition.
- In the source, `reset_bg_model` is an attribute of the shared config
  object, which `detect_presence` sets. Here it is a field of the detector.
  It starts false, because the example configuration does not define it
  (it defines `md_reset_bg_model`).
- The two windows are read from `presence_cool_down_secs` (warmup) and
  `presence_idle_secs` (cooldown), as presence.py reads them. The example
  configuration uses other key names: `presence_cooldown_secs` and
  `presence_warmup_secs`. The model follows the code and does not reconcile
  the names.

## Model

| member | source | states |
|---|---|---|
| `Classifier.FirstPerson` | presence.py:95-100 | The result is none exactly when no box is labelled `'person'`. Otherwise it is the first person box in response order. |
| `Classifier.DetectPerson` | presence.py:82-100 | A failed request (no answer) gives none, the source's `False`. Otherwise the result is some box exactly when the answer holds a person box, and that box is the first one. An empty answer gives none. |
| `PresenceSpec.Step` | presence.py:102-153 | One call keeps the status 0 or 1. The changed flag is true exactly when the status differs from before. Exactly one notification carrying the new status is appended when the status changed and MQTT is on; otherwise nothing is appended. `last_nonmotion_ts` becomes `now` on a present-to-absent change and stays otherwise. Motion always sets `last_motion_ts` to `now`. The exception changes nothing but the flag. |
| `PresenceSpec.WarmupElapsedEntersPresent` | presence.py:125-128 | Absent, with motion, and more than the warmup window since the last absence: the status becomes present and the classifier is not asked. |
| `PresenceSpec.WarmupAsksClassifier` | presence.py:108-120 | Absent, with motion, inside the warmup window, detection on: the classifier is asked. The status becomes present exactly when it finds a person. No background reset is requested. |
| `PresenceSpec.WarmupResetsBackground` | presence.py:121-124 | Absent, with motion, inside the warmup window, detection off: the status stays absent, a background reset is requested, and the classifier is not asked. |
| `PresenceSpec.ResetRequestedOnlyInWarmup` | presence.py:106-124 | A background reset is requested in that warmup branch and nowhere else. The state machine never clears a request. |
| `PresenceSpec.IdleExpiryEntersAbsent` | presence.py:131-137 | Present without motion: the status becomes absent exactly when more than the idle window has passed since the last motion. Then `last_nonmotion_ts` is `now` and the classifier is not asked. |
| `PresenceSpec.CooldownThrottlesClassifier` | presence.py:138-147 | Present without motion, inside the idle window, and not the case that detection is on with a frequency of 0: the status stays present. The classifier is asked exactly when detection is on and the frame number is a multiple of the frequency. A person found sets `last_motion_ts` to `now`; otherwise it is unchanged. |
| `PresenceSpec.ZeroFrequencyRaises` | presence.py:139-142 | The call raises exactly when it reaches the throttle test with a frequency of 0: present, no motion, inside the idle window, detection on. |
| `PresenceSpec.AbsentStillFrameChangesNothing` | presence.py:104-131 | Absent without motion: only the changed flag is cleared, and the classifier is not asked. |
| `PresenceSpec.PresentMotionFrameKeepsPresent` | presence.py:104-129 | Present with motion: the status stays present and only `last_motion_ts` changes. |
| `PresenceSpec.RunKeepsStatusValid` | presence.py:102-153 | Over any run of frames, the status stays 0 or 1. |
| `PresenceSpec.RunNotifiesEachTransition` | presence.py:149-151 | A run only appends to the publish log, always on the state topic. With MQTT on, the number of notifications equals the number of frames on which the status changed (`Transitions`); the statuses published alternate, starting from the opposite of the status before the run; and the last one published is the status after the run. With MQTT off, nothing is published. |
| `PresenceSpec.NotificationsFromStart` | presence.py:43-46 | From the state `__init__` sets up, with MQTT on, the first notification ever published says present, and later ones alternate. |
| `PresenceSpec.SustainedMotionEntersPresent` | presence.py:106-129 | With motion on every frame, the status is present once a frame comes more than the warmup window after the last absence, whatever the classifier answers. |
| `PresenceSpec.StillnessEntersAbsent` | presence.py:130-137 | With no motion and no person found on any frame, the status is absent once a frame comes more than the idle window after the last motion. This assumes the throttle test cannot raise. |
| `PresenceSpec.CooldownKeepsPresent` | presence.py:131-147 | Starting present, while every frame is still and inside the idle window, the status stays present, nothing is published, and `last_nonmotion_ts` is unchanged, whatever the classifier finds. |
| `Presence.PresenceDetector.constructor` | presence.py:39-46 | A new detector is absent, not changed, has both timestamps equal to the creation time, has no reset request, and has published nothing. |
| `Presence.PresenceDetector.DetectPresence` | presence.py:102-153 | The in-place updates give exactly the state and outcome of `Step`. The status stays 0 or 1. The changed flag is true exactly when the status changed. At most the one notification carrying the new status is appended. |
| `Presence.PresenceDetector.DetectMotion` | presence.py:159-173 | Processing frames one by one, numbered from 1, leaves the detector in the state `Run` gives. It stops after a call that raises. |

## Left out

- HTTP layer (`PresenceDetectorView`: `/status`, `/config`, `/camconfig`, `/image`, `/video_feed`): web I/O. This includes the `/config` handler that can store 0 as the detection frequency.
- `generate()` streaming, its `time.sleep` pacing and the `active_video_feeds` counter: concurrent consumers and wall-clock pacing.
- The parts of `detect_motion` other than the counter and the calls to `detect_presence`: OpenCV motion detection, drawing on the frame, FPS counting and the hand-off to the frame relay (`lib/singleton_q.py`, which is not part of this model). The thread's stop flag is not modelled either: a run covers a finite sequence of frames.
- `start`, `cleanup` and `set_cam_config`: thread and camera start-up and shutdown.
- Run-time reconfiguration: the configuration is fixed for the detector's whole life (`config` is a constant and a run uses one configuration for every frame). The `/config` handler can change values such as `send_mqtt` between frames; the run lemmas, including the alternation of published statuses, do not cover a configuration that changes during a run.
- The MQTT transport (`HaMQTT`), the `RepeatedTimer` heartbeat and `mqtt_heartbeat`: I/O and timers. The publish log records only the state machine's own publishes.
- In `detect_person`, the JPEG encoding, the base64/JSON mask encoding and the HTTP POST: foreign library calls. The classifier's answer is an input.
- Floating point:
  - `total_seconds()` is compared as an exact microsecond count. This agrees with the float comparison for windows below about 4 * 10^9 seconds.
  - The detection `accuracy` is carried as a `real` and never inspected.
  - The detection threshold only shapes the request, so it is not modelled.
- Calls to `datetime.now()` within one call of `detect_presence` all read the same time, `now`. In the source they are separate calls microseconds apart.
- Answers the source cannot unpack: a box that is not six fields raises `ValueError` outside the `try`, and a non-list JSON body is iterated differently. A `Box` always has six fields and an answer is always a list.
- The motion detector's handling of `reset_bg_model`: the motion detector is not part of this model. Here the request is only recorded.
