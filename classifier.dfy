/** Picking a person out of the remote object detector's answer
    (`PresenceDetector.detect_person`, presence.py). The HTTP request itself,
    the JPEG encoding and the mask encoding are not modelled: the detector's
    answer is an input, `None` when the request raised. */
module Classifier {
  import opened Wrappers

  /** The only label the presence logic acts on. */
  const PersonLabel: string := "person"

  /** One `(minx, miny, maxx, maxy, label, accuracy)` tuple of the answer.
      The accuracy is carried along and never inspected. */
  datatype Box = Box(minX: int, minY: int, maxX: int, maxY: int, labelName: string, accuracy: real)

  predicate IsPerson(b: Box) {
    b.labelName == PersonLabel
  }

  /** `b` is the first person box of `boxes`, in response order. */
  ghost predicate IsFirstPerson(boxes: seq<Box>, b: Box) {
    exists i :: 0 <= i < |boxes| && boxes[i] == b && IsPerson(b)
                && forall j :: 0 <= j < i ==> !IsPerson(boxes[j])
  }

  /** The `for box in det_boxes` loop: the first person box, or none. */
  function FirstPerson(boxes: seq<Box>): (r: Option<Box>)
    ensures r.None? <==> forall i :: 0 <= i < |boxes| ==> !IsPerson(boxes[i])
    ensures r.Some? ==> IsFirstPerson(boxes, r.value)
  {
    if boxes == [] then None
    else if IsPerson(boxes[0]) then
      Some(boxes[0])
    else
      var r := FirstPerson(boxes[1..]);
      assert r.Some? ==> IsFirstPerson(boxes, r.value) by {
        if r.Some? {
          var i :| 0 <= i < |boxes[1..]| && boxes[1..][i] == r.value && IsPerson(r.value)
                   && forall j :: 0 <= j < i ==> !IsPerson(boxes[1..][j]);
          assert boxes[i + 1] == r.value;
          assert forall j :: 0 <= j < i + 1 ==> !IsPerson(boxes[j]) by {
            forall j | 0 <= j < i + 1 ensures !IsPerson(boxes[j]) {
              if j > 0 { assert boxes[j] == boxes[1..][j - 1]; }
            }
          }
        }
      }
      r
  }

  /** `detect_person`: `None` plays the part of the source's `False`.
      A missing answer (the request raised and the exception was caught)
      and an answer without a person box both give `None`. */
  function DetectPerson(answer: Option<seq<Box>>): (r: Option<Box>)
    ensures answer.None? ==> r.None?
    ensures r.Some? <==> answer.Some? && exists i :: 0 <= i < |answer.value| && IsPerson(answer.value[i])
    ensures r.Some? ==> IsFirstPerson(answer.value, r.value)
  {
    match answer
    case None => None
    case Some(boxes) => FirstPerson(boxes)
  }
}
