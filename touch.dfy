/**
 * The touch screen driver on top of the FT6x36 controller: each controller sample becomes
 * at most one press, move or release event, and the last event returned is remembered so
 * that a lost press can be made up for and a vanished touch point still ends in a release.
 */
module Touch {
  import opened Wrappers

  type u16 = x: int | 0 <= x < 0x1_0000

  datatype TouchPosition = TouchPosition(x: int, y: int)

  datatype TouchEvent =
    | TouchPressed(pressedAt: TouchPosition)
    | TouchReleased(releasedAt: TouchPosition)
    | TouchMoved(movedTo: TouchPosition)

  /** `TouchEvent::touch_position`: the position every variant carries. */
  function TouchPositionOf(e: TouchEvent): (p: TouchPosition)
    ensures e == TouchPressed(p) || e == TouchReleased(p) || e == TouchMoved(p)
  {
    match e
    case TouchPressed(pos) => pos
    case TouchReleased(pos) => pos
    case TouchMoved(pos) => pos
  }

  /** The controller's report kinds (`ft6x36::TouchType`). */
  datatype TouchType = Press | Release | Contact | Invalid

  /** The first touch point of a controller sample, in controller coordinates. */
  datatype TouchPoint = TouchPoint(touchType: TouchType, x: u16, y: u16)

  datatype Error = IOError

  type Outcome = Result<Option<TouchEvent>, Error>

  /** `e` has been returned when it is inside an `Ok(Some(_))`. */
  predicate Returned(o: Outcome)
  {
    o.Ok? && o.value.Some?
  }

  // ---------------------------------------------------------------------------------------
  // What the events mean, stated over the sequence of returned events

  /** A touch is in progress: some press was returned and no release after it. */
  predicate Touching(t: seq<TouchEvent>)
  {
    t != [] && !t[|t| - 1].TouchReleased?
  }

  /** Every move is preceded by a press with no release in between. */
  predicate MovesInsideTouches(t: seq<TouchEvent>)
  {
    forall i :: 0 <= i < |t| && t[i].TouchMoved? ==>
      exists j :: 0 <= j < i && t[j].TouchPressed? && forall k :: j < k < i ==> !t[k].TouchReleased?
  }

  /**
   * While a touch is in progress, a press began it: the last press of the trace has no
   * release after it.
   */
  predicate PressOpen(t: seq<TouchEvent>)
  {
    exists j :: 0 <= j < |t| && t[j].TouchPressed? && forall k :: j < k < |t| ==> !t[k].TouchReleased?
  }

  /** A trace that is not touching ends in a release or is empty; one that is, has an open press. */
  lemma {:induction false} OpenPressOfTouching(t: seq<TouchEvent>)
    requires MovesInsideTouches(t) && Touching(t)
    ensures PressOpen(t)
  {
    var n := |t| - 1;
    match t[n]
    case TouchPressed(_) =>
      assert t[n].TouchPressed?;
    case TouchMoved(_) =>
      var j :| 0 <= j < n && t[j].TouchPressed? && forall k :: j < k < n ==> !t[k].TouchReleased?;
      assert forall k :: j < k < |t| ==> !t[k].TouchReleased?;
  }

  /** Appending an event keeps moves inside touches when a move only extends an open touch. */
  lemma MovesInsideTouchesSnoc(t: seq<TouchEvent>, e: TouchEvent)
    requires MovesInsideTouches(t)
    requires e.TouchMoved? ==> Touching(t)
    ensures MovesInsideTouches(t + [e])
  {
    var u := t + [e];
    forall i | 0 <= i < |u| && u[i].TouchMoved?
      ensures exists j :: 0 <= j < i && u[j].TouchPressed? && forall k :: j < k < i ==> !u[k].TouchReleased?
    {
      if i < |t| {
        var j :| 0 <= j < i && t[j].TouchPressed? && forall k :: j < k < i ==> !t[k].TouchReleased?;
        assert u[j].TouchPressed? && forall k :: j < k < i ==> !u[k].TouchReleased?;
      } else {
        OpenPressOfTouching(t);
        var j :| 0 <= j < |t| && t[j].TouchPressed? && forall k :: j < k < |t| ==> !t[k].TouchReleased?;
        assert u[j].TouchPressed? && forall k :: j < k < i ==> !u[k].TouchReleased?;
      }
    }
  }

  /** `last_returned_event` as the returned events determine it. */
  function LastHeld(t: seq<TouchEvent>): (r: Option<TouchEvent>)
    ensures r.Some? <==> Touching(t)
    ensures r.Some? ==> r.value == t[|t| - 1] && !r.value.TouchReleased?
  {
    if Touching(t) then Some(t[|t| - 1]) else None
  }

  /**
   * What `Touch::event` does with one sample, as a value: the outcome and the new
   * `last_returned_event`, given the one before.
   */
  function EventOf(last: Option<TouchEvent>, p1: Option<TouchPoint>): (Outcome, Option<TouchEvent>)
  {
    match p1
    case None =>
      if last.Some? then (Ok(Some(TouchReleased(TouchPositionOf(last.value)))), None) else (Ok(None), None)
    case Some(TouchPoint(touchType, x, y)) =>
      var pos := TouchPosition(x, y);
      match touchType
      case Press => (Ok(Some(TouchPressed(pos))), Some(TouchPressed(pos)))
      case Contact =>
        var e := if last.None? then TouchPressed(pos) else TouchMoved(pos);
        (Ok(Some(e)), Some(e))
      case Release => (Ok(Some(TouchReleased(pos))), None)
      case Invalid => (Err(IOError), last)
  }

  /**
   * What `Touch::event_async` gives on the samples `samples`: the first outcome that is an
   * event or an error, the samples left after it and the new `last_returned_event`; samples
   * whose outcome is `Ok(None)` are skipped, and `None` means the samples ran out.
   */
  function FirstEvent(last: Option<TouchEvent>, samples: seq<Option<TouchPoint>>)
    : (Option<Outcome>, seq<Option<TouchPoint>>, Option<TouchEvent>)
    decreases |samples|
  {
    if samples == [] then (None, [], last)
    else
      var (o, last') := EventOf(last, samples[0]);
      if o.Err? || o.value.Some? then (Some(o), samples[1..], last')
      else FirstEvent(last', samples[1..])
  }

  /**
   * Only empty samples are skipped, and only while no touch is in progress: every sample
   * before the one that stops the wait (or every sample, when none does) has no touch point,
   * and then `last_returned_event` was `None`.
   */
  lemma {:induction false} SkipsOnlyEmptySamples(last: Option<TouchEvent>, samples: seq<Option<TouchPoint>>)
    ensures var (r, rest, _) := FirstEvent(last, samples);
            var skipped := |samples| - |rest| - (if r.Some? then 1 else 0);
            && 0 <= skipped <= |samples|
            && (forall i :: 0 <= i < skipped ==> samples[i].None?)
            && (skipped > 0 ==> last.None?)
    decreases |samples|
  {
    if samples != [] {
      var (o, last') := EventOf(last, samples[0]);
      if !(o.Err? || o.value.Some?) {
        assert samples[0].None? && last.None? && last' == None;
        SkipsOnlyEmptySamples(last', samples[1..]);
      }
    }
  }

  class Touch {
    /** The samples the controller will give, one per `get_touch_event`. */
    var samples: seq<Option<TouchPoint>>
    var lastReturnedEvent: Option<TouchEvent>
    /** The events returned so far, in order. */
    ghost var returned: seq<TouchEvent>

    ghost predicate Valid()
      reads this
    {
      && lastReturnedEvent == LastHeld(returned)
      && MovesInsideTouches(returned)
    }

    /** `Touch::new`: no event returned yet. */
    constructor (samples: seq<Option<TouchPoint>>)
      ensures this.samples == samples && lastReturnedEvent == None && returned == []
      ensures Valid()
    {
      this.samples := samples;
      lastReturnedEvent := None;
      returned := [];
    }

    /**
     * `Touch::event` on the sample `p1`: no point ends a touch in progress with a release
     * where it was last seen; a press starts a touch; a contact moves it, or starts it when
     * the press was missed; a release ends it (also when no press was seen); an invalid
     * report is an I/O error and changes nothing.
     */
    method Event(p1: Option<TouchPoint>) returns (r: Outcome)
      requires Valid()
      modifies this`lastReturnedEvent, this`returned
      ensures Valid()
      ensures (r, lastReturnedEvent) == EventOf(old(lastReturnedEvent), p1)
      ensures returned == old(returned) + (if Returned(r) then [r.value.value] else [])
      ensures p1.None? ==>
                r == Ok(if old(lastReturnedEvent).Some? then Some(TouchReleased(TouchPositionOf(old(lastReturnedEvent).value))) else None)
      ensures p1.Some? && p1.value.touchType == Invalid ==> r == Err(IOError) && lastReturnedEvent == old(lastReturnedEvent)
      ensures p1.Some? && p1.value.touchType != Invalid ==> (
                var pos := TouchPosition(p1.value.x, p1.value.y);
                r == Ok(Some(
                  match p1.value.touchType
                  case Press => TouchPressed(pos)
                  case Contact => if old(lastReturnedEvent).None? then TouchPressed(pos) else TouchMoved(pos)
                  case _ => TouchReleased(pos))))
    {
      match p1 {
        case None =>
          if lastReturnedEvent.Some? {
            var event := lastReturnedEvent.value;
            lastReturnedEvent := None;
            r := Ok(Some(TouchReleased(TouchPositionOf(event))));
            Record(r.value.value);
          } else {
            r := Ok(None);
          }
        case Some(TouchPoint(touchType, x, y)) =>
          var pos := TouchPosition(x, y);
          match touchType {
            case Press =>
              lastReturnedEvent := Some(TouchPressed(pos));
              r := Ok(lastReturnedEvent);
              Record(r.value.value);
            case Contact =>
              if lastReturnedEvent.None? {
                lastReturnedEvent := Some(TouchPressed(pos));
              } else {
                lastReturnedEvent := Some(TouchMoved(pos));
              }
              r := Ok(lastReturnedEvent);
              Record(r.value.value);
            case Release =>
              lastReturnedEvent := None;
              r := Ok(Some(TouchReleased(pos)));
              Record(r.value.value);
            case Invalid =>
              r := Err(IOError);
          }
      }
    }

    /** Notes a returned event; a move may only be returned while a touch is in progress. */
    ghost method Record(e: TouchEvent)
      requires MovesInsideTouches(returned)
      requires e.TouchMoved? ==> Touching(returned)
      requires lastReturnedEvent == LastHeld(returned + [e])
      modifies this`returned
      ensures returned == old(returned) + [e] && Valid()
    {
      MovesInsideTouchesSnoc(returned, e);
      returned := returned + [e];
    }

    /**
     * `Touch::event_async`: takes samples until one gives an event or an error; samples
     * without an event are skipped. `None` when the controller runs out of samples, which
     * stands for waiting for ever.
     */
    method EventAsync() returns (r: Option<Outcome>)
      requires Valid()
      modifies this`samples, this`lastReturnedEvent, this`returned
      ensures Valid()
      ensures r.Some? ==> r.value.Err? || Returned(r.value)
      ensures r.None? ==> samples == [] && returned == old(returned)
      ensures r.Some? && Returned(r.value) ==> returned == old(returned) + [r.value.value.value]
      ensures r.Some? && r.value.Err? ==> returned == old(returned)
      ensures |samples| < |old(samples)|  || (old(samples) == [] && r.None?)
      ensures old(samples)[|old(samples)| - |samples|..] == samples
      ensures (r, samples, lastReturnedEvent) == FirstEvent(old(lastReturnedEvent), old(samples))
    {
      ghost var start := samples;
      while samples != []
        invariant Valid() && returned == old(returned)
        invariant |samples| <= |start| && start[|start| - |samples|..] == samples
        invariant FirstEvent(lastReturnedEvent, samples) == FirstEvent(old(lastReturnedEvent), start)
        decreases |samples|
      {
        var p1 := samples[0];
        samples := samples[1..];
        var o := Event(p1);
        if o.Err? || o.value.Some? {
          return Some(o);
        }
      }
      return None;
    }
  }
}
