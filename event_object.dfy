/** `Event` as an object: the constructor, and the two setters a callback
    calls, update its fields in place. */
module Events {
  import opened Values
  import D = Dispatch

  class Event {
    var eventType: EventType
    var cancelable: bool
    var prevented: bool
    var stop: bool
    var target: D.TargetRef

    /** The fields as a value. */
    function State(): D.Event
      reads this
    {
      D.Event(eventType, cancelable, prevented, stop, target)
    }

    /** `new Event(type, options)` with a type given: not cancelable only
        when `options.cancelable` is `false`, no flag set, no target. */
    constructor (eventType: EventType, options: Option<EventOptions>)
      ensures D.NewEvent(Some(eventType), options) == Ok(State())
    {
      this.eventType := eventType;
      cancelable := CancelableOf(options);
      prevented := false;
      stop := false;
      target := D.NullTarget;
    }

    /** `new Event(...)` in general: with no argument at all it throws. */
    static method Create(eventType: Option<EventType>, options: Option<EventOptions>) returns (r: Result<Event>)
      ensures r.Err? <==> eventType.None?
      ensures r.Err? ==> D.NewEvent(eventType, options) == Err(r.error)
      ensures r.Ok? ==> fresh(r.value) && D.NewEvent(eventType, options) == Ok(r.value.State())
    {
      if eventType.None? {
        return Err(InvalidEvent);
      }
      var e := new Event(eventType.value, options);
      return Ok(e);
    }

    /** `stopImmediatePropagation()`: sets `kStop`, which is never reset. */
    method StopImmediatePropagation()
      modifies this
      ensures State() == D.StopImmediatePropagation(old(State()))
    {
      stop := true;
    }

    /** `preventDefault()`: sets the raw flag, whether or not the event is
        cancelable. */
    method PreventDefault()
      modifies this
      ensures State() == D.PreventDefault(old(State()))
    {
      prevented := true;
    }

    /** The `defaultPrevented` getter. */
    function DefaultPrevented(): (b: bool)
      reads this
      ensures b == D.DefaultPrevented(State())
    {
      cancelable && prevented
    }
  }
}
