/** `PresenceDetector` (presence.py): the object whose fields the detection
    thread updates frame by frame. Its methods are proved against the
    specification in `PresenceSpec`. */
module Presence {
  import opened Wrappers
  import opened Classifier
  import opened PresenceSpec

  class PresenceDetector {
    /** The configuration values the state machine reads. */
    const config: Config

    var motionStatus: int
    var motionStatusChanged: bool
    var lastMotionTs: int
    var lastNonmotionTs: int
    /** `config.reset_bg_model`: a request to the motion detector to reset
        its background model. */
    var resetBgModel: bool
    /** The MQTT publishes made so far, oldest first. */
    var published: seq<Notification>

    ghost predicate Valid()
      reads this
    {
      ValidStatus(motionStatus)
    }

    /** The fields as a specification state. */
    function Snapshot(): State
      reads this
    {
      State(motionStatus, motionStatusChanged, lastMotionTs, lastNonmotionTs, resetBgModel, published)
    }

    /** `__init__` at time `now`: absent, unchanged, both timestamps `now`,
        no reset requested and nothing published. */
    constructor (config: Config, now: int)
      ensures Valid()
      ensures this.config == config
      ensures Snapshot() == Initial(now)
    {
      this.config := config;
      motionStatus := Absent;
      motionStatusChanged := false;
      lastMotionTs := now;
      lastNonmotionTs := now;
      resetBgModel := false;
      published := [];
    }

    /** `detect_presence(frame, motion, total_frames)` at time `now`, where
        `answer` is what the classifier answers if it is asked. */
    method DetectPresence(motion: bool, totalFrames: int, now: int, answer: Option<seq<Box>>) returns (r: Outcome)
      requires Valid()
      modifies this
      ensures Valid()
      ensures Tick(Snapshot(), r) == Step(config, old(Snapshot()), Frame(motion, now, answer), totalFrames)
      ensures motionStatusChanged <==> motionStatus != old(motionStatus)
      ensures published == old(published) + if motionStatusChanged && config.sendMqtt then [Notification(config.stateTopic, motionStatus)] else []
    {
      r := NotAsked;
      motionStatusChanged := false;

      if motion {
        if motionStatus == Absent {
          if WithinSecs(now, lastNonmotionTs, config.coolDownSecs) {
            if config.personDetectionEnabled {
              var found := DetectPerson(answer);
              r := Asked(found);
              if found.Some? {
                motionStatus := Present;
                motionStatusChanged := true;
              }
            } else {
              resetBgModel := true;
            }
          } else {
            motionStatus := Present;
            motionStatusChanged := true;
          }
        }
        lastMotionTs := now;
      } else if motionStatus == Present {
        if !WithinSecs(now, lastMotionTs, config.idleSecs) {
          motionStatus := Absent;
          motionStatusChanged := true;
          lastNonmotionTs := now;
        } else if config.personDetectionEnabled {
          if config.detectionFrequencyFrames == 0 {
            r := ZeroDivisionError;
            return;
          }
          if totalFrames % config.detectionFrequencyFrames == 0 {
            var found := DetectPerson(answer);
            r := Asked(found);
            if found.Some? {
              lastMotionTs := now;
            }
          }
        }
      }

      if motionStatusChanged && config.sendMqtt {
        published := published + [Notification(config.stateTopic, motionStatus)];
      }
    }

    /** The frame loop of `detect_motion` over the frames `frames`: the
        counter starts at 0 and goes up by one before each frame, so the
        first frame is number 1. The loop ends early when `detect_presence`
        raises, as the thread would. */
    method DetectMotion(frames: seq<Frame>)
      requires Valid()
      modifies this
      ensures Valid()
      ensures Snapshot() == Run(config, old(Snapshot()), frames, 1)
    {
      var total := 0;
      var i := 0;
      while i < |frames|
        invariant 0 <= i <= |frames| && total == i
        invariant Valid()
        invariant Run(config, Snapshot(), frames[i..], total + 1) == Run(config, old(Snapshot()), frames, 1)
      {
        total := total + 1;
        assert frames[i..][0] == frames[i] && frames[i..][1..] == frames[i + 1..];
        var r := DetectPresence(frames[i].motion, total, frames[i].now, frames[i].answer);
        if r == ZeroDivisionError {
          return;
        }
        i := i + 1;
      }
    }
  }
}
