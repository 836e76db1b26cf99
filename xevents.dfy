/**
 * The slice of the X11 event model that the mirror's event loop looks at.
 *
 * An XEvent is a union; every member starts with the event type, and the
 * members the loop inspects all carry the window the event was reported on
 * and, for the pointer and key events, the pointer position (x, y) relative to
 * that window. Everything else in the union (serial number, send_event flag,
 * root and child windows, timestamp, modifier state, button or keycode, ...) is
 * never read or written by the loop and is kept here as opaque bytes.
 */
module XEvents {

  /** A C `int`: the type of the x and y members of the positional events. */
  newtype Int32 = x: int | -0x8000_0000 <= x < 0x8000_0000

  /** An X resource id (window, damage object, graphics context). */
  type XId = nat

  // Core protocol event codes, as X.h numbers them.
  const KeyPress: int := 2
  const KeyRelease: int := 3
  const ButtonPress: int := 4
  const ButtonRelease: int := 5
  const MotionNotify: int := 6

  datatype Event = Event(
    eventType: int,   // event code; extension events are offset by the extension's event base
    window: XId,      // window the event is reported on
    x: Int32,         // pointer position relative to `window` (positional events only)
    y: Int32,
    rest: seq<bv8>)   // the rest of the union, untouched by the loop

  /** The event kinds whose x and y are pointer coordinates in the reporting window. */
  predicate IsPositional(t: int)
  {
    t == ButtonPress || t == ButtonRelease
    || t == KeyPress || t == KeyRelease
    || t == MotionNotify
  }
}
