/** The values that cross the public API of the event target: event-type keys,
    what a caller may pass as a listener, listener and event options, and the
    errors the API raises. */
module Values {

  datatype Option<T> = None | Some(value: T)

  /** The errors raised synchronously to the caller. */
  datatype Error =
    | InvalidEvent            // `new Event()` with no argument, or dispatch of a non-Event
    | InvalidAddEventListener // `addEventListener` called with fewer than two arguments
    | InvalidListener         // a listener that is neither callable nor null/undefined

  datatype Result<T> = Ok(value: T) | Err(error: Error)

  /** Event-type keys of the listener map (string literals in practice). */
  type EventType = string

  /** What a caller may pass where a listener is expected. Identities are
      opaque numbers; two listeners are the same when the values are equal. */
  datatype ListenerValue =
    | Undefined
    | Null
    | Function(id: nat)
      // an object; `hasHandleEvent` says whether its `handleEvent` is a function
    | Object(id: nat, hasHandleEvent: bool)
      // a number, string, boolean or symbol
    | Primitive(id: nat)

  /** Options of `addEventListener` / `removeEventListener`; `None` is an
      absent (undefined) property. */
  datatype ListenerOptions = ListenerOptions(once: Option<bool>, capture: Option<bool>, passive: Option<bool>)

  /** Options of the `Event` constructor (only the flag dispatch reads). */
  datatype EventOptions = EventOptions(cancelable: Option<bool>)

  /** `shouldAddListener`: a callable listener is accepted, a nullish one is
      ignored, anything else throws. */
  function ShouldAddListener(listener: ListenerValue): (r: Result<bool>)
    ensures r == Ok(true) <==> listener.Function? || (listener.Object? && listener.hasHandleEvent)
    ensures r == Ok(false) <==> listener == Undefined || listener == Null
    ensures r.Err? <==> listener.Primitive? || (listener.Object? && !listener.hasHandleEvent)
    ensures r.Err? ==> r.error == InvalidListener
  {
    match listener
    case Function(_) => Ok(true)
    case Object(_, callable) => if callable then Ok(true) else Err(InvalidListener)
    case Undefined => Ok(false)
    case Null => Ok(false)
    case Primitive(_) => Err(InvalidListener)
  }

  function OrFalse(b: Option<bool>): bool {
    b == Some(true)
  }

  /** `addEventListener` destructures `{ once = false, capture = false,
      passive = false }` from the options (an absent options object is `{}`). */
  function AddOnce(options: Option<ListenerOptions>): bool {
    options.Some? && OrFalse(options.value.once)
  }

  function AddCapture(options: Option<ListenerOptions>): bool {
    options.Some? && OrFalse(options.value.capture)
  }

  function AddPassive(options: Option<ListenerOptions>): bool {
    options.Some? && OrFalse(options.value.passive)
  }

  /** `removeEventListener` computes `options != null && options.capture === true`. */
  function RemoveCapture(options: Option<ListenerOptions>): (capture: bool)
    ensures capture <==> options.Some? && options.value.capture == Some(true)
  {
    match options
    case None => false
    case Some(o) => o.capture == Some(true)
  }

  /** The two ways of reading `capture` agree on every boolean options value,
      so a listener added with some options is removed with the same options. */
  lemma CaptureReadsAgree(options: Option<ListenerOptions>)
    ensures RemoveCapture(options) == AddCapture(options)
  {
  }

  /** The `Event` constructor reads `cancelable` with default `true`. */
  function CancelableOf(options: Option<EventOptions>): (cancelable: bool)
    ensures !cancelable <==> options.Some? && options.value.cancelable == Some(false)
  {
    match options
    case None => true
    case Some(o) => o.cancelable != Some(false)
  }
}
