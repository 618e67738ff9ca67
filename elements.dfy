/** `Timeline.findBrother`: the other element of the same clip. */
module Elements {
  import opened Wrappers

  /** A backend track element: its identity and the clip it belongs to, if any. */
  datatype TrackElement = TrackElement(id: nat, parent: Option<nat>)

  /** A timeline element actor, known by the track element it draws. */
  datatype TimelineElement = TimelineElement(bElement: TrackElement)

  /** A different track element with the same parent clip. */
  predicate IsBrother(candidate: TimelineElement, element: TrackElement)
  {
    candidate.bElement.parent == element.parent && candidate.bElement != element
  }

  /** `findBrother`: the first element of the timeline that is a brother of `element`, or none. */
  method FindBrother(elements: seq<TimelineElement>, element: TrackElement) returns (brother: Option<TimelineElement>)
    ensures brother.Some? ==>
      exists i :: && 0 <= i < |elements| && elements[i] == brother.value
                  && IsBrother(elements[i], element)
                  && forall k :: 0 <= k < i ==> !IsBrother(elements[k], element)
    ensures brother.None? <==> forall k :: 0 <= k < |elements| ==> !IsBrother(elements[k], element)
  {
    var father := element.parent;
    var i := 0;
    while i < |elements|
      invariant 0 <= i <= |elements|
      invariant forall k :: 0 <= k < i ==> !IsBrother(elements[k], element)
    {
      var elem := elements[i];
      if elem.bElement.parent == father && elem.bElement != element {
        return Some(elem);
      }
      i := i + 1;
    }
    return None;
  }
}
