/**
 * The mirror's event loop (XpandWindow in xpand.c).
 *
 * After setup the loop reads one event at a time from the display connection
 * and does one of three things with it:
 *   - an event with the damage extension's event code: an XCopyArea of a
 *     scaledWidth x scaledHeight rectangle from the source's origin to the
 *     mirror's origin, then clear the accumulated damage;
 *   - any other event reported on the mirror window: divide the pointer
 *     coordinates of the five positional kinds by the scale factor (C integer
 *     division), then send the event on to the source window;
 *   - anything else: drop it.
 *
 * The requests the loop makes of the X server are recorded as Actions; the
 * event queue is a finite sequence of Events consumed in order.
 */
module Xpand {
  import opened CDivision
  import opened XEvents

  /** The members of the source window's XWindowAttributes that setup reads. */
  datatype Attributes = Attributes(
    x: int, y: int,        // relative to the source's own parent
    width: int, height: int,
    borderWidth: int,
    root: XId,             // the root window of the source's screen
    allEventMasks: int)  // the union of every client's event mask on the source

  /** What the loop works with; none of it changes once the loop has started. */
  datatype Session = Session(
    source: XId,           // the mirrored window
    mirror: XId,           // the scaled window this process created
    scale: int,            // the scale factor
    damageEventBase: int,  // event code of a damage notification
    damage: XId,           // damage object watching the source window
    gc: XId,               // graphics context bound to the mirror
    scaledWidth: int,      // mirror size, fixed at setup
    scaledHeight: int)
  {
    predicate Valid()
    {
      scale >= 1
    }
  }

  /** The window geometry and the event mask the mirror is created with. */
  datatype Geometry = Geometry(parent: XId, x: int, y: int, width: int, height: int,
                               borderWidth: int, eventMask: int)

  /** The requests the loop sends to the X server. */
  datatype Action =
    | CopyArea(src: XId, dst: XId, gc: XId,
               srcX: int, srcY: int, width: int, height: int, dstX: int, dstY: int)
      // repair and parts are both None: the whole damage region is cleared
    | DamageSubtract(damage: XId)
    | SendEvent(dest: XId, propagate: bool, eventMask: int, event: Event)

  /**
   * The session that setup hands to the loop: the mirror is the source's size
   * times the scale factor. The window ids and the damage event code come from
   * the X server and are taken as given.
   */
  function Setup(source: XId, scale: int, attrs: Attributes,
                 mirror: XId, damageEventBase: int, damage: XId, gc: XId): (s: Session)
    requires scale >= 1
    ensures s.Valid() && s.scale == scale
    ensures s.source == source && s.mirror == mirror && s.damage == damage && s.gc == gc
    ensures s.damageEventBase == damageEventBase
    // the mirror's size divides back exactly to the source's
    ensures TruncDiv(s.scaledWidth, s.scale) == attrs.width
    ensures TruncDiv(s.scaledHeight, s.scale) == attrs.height
  {
    TruncDivExact(attrs.width, scale);
    TruncDivExact(attrs.height, scale);
    Session(source, mirror, scale, damageEventBase, damage, gc,
            attrs.width * scale, attrs.height * scale)
  }

  /**
   * What XCreateWindow is given for the mirror: the root window of the
   * source's screen as parent, the source's x and y (relative to the source's
   * own parent) and border, the session's scaled size, and the source's event
   * mask.
   */
  function MirrorGeometry(attrs: Attributes, s: Session): Geometry
  {
    Geometry(attrs.root, attrs.x, attrs.y, s.scaledWidth, s.scaledHeight, attrs.borderWidth,
             attrs.allEventMasks)
  }

  /**
   * The refresh copy: a rectangle of the mirror's size, from the source's
   * origin to the mirror's origin (XCopyArea copies pixels one to one).
   */
  function FullCopy(s: Session): Action
  {
    CopyArea(s.source, s.mirror, s.gc, 0, 0, s.scaledWidth, s.scaledHeight, 0, 0)
  }

  /** `c /= scale` on a C int; the quotient is never larger in magnitude, so it fits. */
  function Descale(c: Int32, scale: int): (r: Int32)
    requires scale >= 1
    // C's contract for `/`: the remainder is below the divisor and has the dividend's sign
    ensures Abs(c as int - r as int * scale) < scale
    ensures c as int - r as int * scale == 0 || (c as int - r as int * scale < 0 <==> c < 0)
    ensures Abs(r as int) <= Abs(c as int)
  {
    TruncDivShrinks(c as int, scale);
    TruncDiv(c as int, scale) as Int32
  }

  /** The event as it is forwarded: positional kinds get mirror coordinates divided down. */
  function Relay(s: Session, e: Event): Event
    requires s.Valid()
  {
    if IsPositional(e.eventType) then
      e.(x := Descale(e.x, s.scale), y := Descale(e.y, s.scale))
    else
      e
  }

  /** Recognised by its event code alone, whatever window or damage object it names. */
  predicate IsDamage(s: Session, e: Event)
  {
    e.eventType == s.damageEventBase
  }

  /** Reported on the mirror and not a damage notification. */
  predicate IsMirrorInput(s: Session, e: Event)
  {
    !IsDamage(s, e) && e.window == s.mirror
  }

  /** The requests one event gives rise to. */
  function Step(s: Session, e: Event): seq<Action>
    requires s.Valid()
  {
    if IsDamage(s, e) then
      [FullCopy(s), DamageSubtract(s.damage)]
    else if e.window == s.mirror then
      [SendEvent(s.source, false, 0, Relay(s, e))]
    else
      []
  }

  /** The requests a run over `es` makes: each event's, in arrival order. */
  function Trace(s: Session, es: seq<Event>): seq<Action>
    requires s.Valid()
  {
    if es == [] then [] else Trace(s, es[..|es| - 1]) + Step(s, es[|es| - 1])
  }

  /**
   * The shape every trace has: each copy is the full refresh copy and is
   * followed by the subtract of the session's damage object, each subtract
   * follows such a copy, and each event is sent to the source window without
   * propagation and with an empty event mask.
   */
  predicate WellPlaced(s: Session, t: seq<Action>, i: int)
    requires 0 <= i < |t|
  {
    match t[i]
    case CopyArea(_, _, _, _, _, _, _, _, _) =>
      t[i] == FullCopy(s) && i + 1 < |t| && t[i + 1] == DamageSubtract(s.damage)
    case DamageSubtract(d) =>
      d == s.damage && 0 < i && t[i - 1] == FullCopy(s)
    case SendEvent(dest, propagate, mask, _) =>
      dest == s.source && !propagate && mask == 0
  }

  predicate WellFormed(s: Session, t: seq<Action>)
  {
    forall i | 0 <= i < |t| :: WellPlaced(s, t, i)
  }

  /** Two well-formed traces in a row make a well-formed trace. */
  lemma WellFormedAppend(s: Session, t: seq<Action>, u: seq<Action>)
    requires WellFormed(s, t) && WellFormed(s, u)
    ensures WellFormed(s, t + u)
  {
    var tu := t + u;
    forall i | 0 <= i < |tu|
      ensures WellPlaced(s, tu, i)
    {
      if i < |t| {
        assert WellPlaced(s, t, i);
        assert tu[i] == t[i];
        if i + 1 < |t| { assert tu[i + 1] == t[i + 1]; }
        if 0 < i { assert tu[i - 1] == t[i - 1]; }
      } else {
        var j := i - |t|;
        assert WellPlaced(s, u, j);
        assert tu[i] == u[j];
        if j + 1 < |u| { assert tu[i + 1] == u[j + 1]; }
        if 0 < j { assert tu[i - 1] == u[j - 1]; }
      }
    }
  }

  /**
   * One iteration of the loop body: classify the event, then refresh the
   * mirror or rewrite and forward the event, or do nothing.
   */
  method Dispatch(s: Session, e0: Event) returns (acts: seq<Action>)
    requires s.Valid()
    ensures acts == Step(s, e0)
    ensures WellFormed(s, acts)
  {
    var e := e0;
    if e.eventType == s.damageEventBase {
      acts := [CopyArea(s.source, s.mirror, s.gc, 0, 0, s.scaledWidth, s.scaledHeight, 0, 0)];
      acts := acts + [DamageSubtract(s.damage)];
      assert WellPlaced(s, acts, 0) && WellPlaced(s, acts, 1);
    } else if e.window == s.mirror {
      // mirror coordinates back to source coordinates
      if e.eventType == ButtonPress || e.eventType == ButtonRelease {
        e := e.(x := Descale(e.x, s.scale));
        e := e.(y := Descale(e.y, s.scale));
      } else if e.eventType == KeyPress || e.eventType == KeyRelease {
        e := e.(x := Descale(e.x, s.scale));
        e := e.(y := Descale(e.y, s.scale));
      } else if e.eventType == MotionNotify {
        e := e.(x := Descale(e.x, s.scale));
        e := e.(y := Descale(e.y, s.scale));
      }
      acts := [SendEvent(s.source, false, 0, e)];
      assert WellPlaced(s, acts, 0);
    } else {
      acts := [];
    }
  }

  /**
   * The loop, run over the events the queue delivers: each event is taken in
   * turn and its requests are appended to the trace.
   */
  method Run(s: Session, events: seq<Event>) returns (trace: seq<Action>)
    requires s.Valid()
    ensures trace == Trace(s, events)
    ensures WellFormed(s, trace)
  {
    trace := [];
    var i := 0;
    while i < |events|
      invariant 0 <= i <= |events|
      invariant trace == Trace(s, events[..i])
      invariant WellFormed(s, trace)
    {
      var e := events[i];
      var acts := Dispatch(s, e);
      WellFormedAppend(s, trace, acts);
      trace := trace + acts;
      assert events[..i + 1][..i] == events[..i];
      i := i + 1;
    }
    assert events[..i] == events;
  }
}
