/**
 * What the event loop guarantees: per event (classification, precedence,
 * coordinate rewriting, what reaches the source window) and per run (arrival
 * order, one refresh per damage notification, exactly the mirror's input
 * forwarded).
 */
module XpandProperties {
  import opened CDivision
  import opened XEvents
  import opened Xpand

  // ---------------------------------------------------------------------------
  // One event

  /**
   * A damage notification yields exactly one copy of the whole mirror-sized
   * area from the source's origin to the mirror's origin, then exactly one
   * subtract of the session's damage object, and nothing is sent.
   */
  lemma DamageRefreshes(s: Session, e: Event)
    requires s.Valid() && IsDamage(s, e)
    ensures |Step(s, e)| == 2
    ensures Step(s, e)[0].CopyArea?
    ensures Step(s, e)[0].src == s.source && Step(s, e)[0].dst == s.mirror
    ensures Step(s, e)[0].srcX == 0 && Step(s, e)[0].srcY == 0
    ensures Step(s, e)[0].dstX == 0 && Step(s, e)[0].dstY == 0
    ensures Step(s, e)[0].width == s.scaledWidth && Step(s, e)[0].height == s.scaledHeight
    ensures Step(s, e)[1] == DamageSubtract(s.damage)
    ensures forall a <- Step(s, e) :: !a.SendEvent?
  {
  }

  /**
   * The damage test comes first: a damage notification is handled the same
   * way whichever window it names, the mirror included.
   */
  lemma DamageTakesPrecedence(s: Session, e: Event, w: XId)
    requires s.Valid() && IsDamage(s, e)
    ensures Step(s, e) == Step(s, e.(window := w))
    ensures !IsMirrorInput(s, e)
  {
  }

  /**
   * Every non-damage event reported on the mirror, of any kind, is sent to the
   * source window exactly once, without propagation and with an empty mask;
   * its kind, window and the rest of its payload are unchanged, and its
   * coordinates are divided by the scale factor exactly when it is one of the
   * five positional kinds.
   */
  lemma MirrorInputForwarded(s: Session, e: Event)
    requires s.Valid() && IsMirrorInput(s, e)
    ensures |Step(s, e)| == 1 && Step(s, e)[0].SendEvent?
    ensures Step(s, e)[0].dest == s.source
    ensures !Step(s, e)[0].propagate && Step(s, e)[0].eventMask == 0
    ensures var f := Step(s, e)[0].event;
      && f.eventType == e.eventType && f.window == e.window && f.rest == e.rest
      && (IsPositional(e.eventType) ==>
            f.x as int == TruncDiv(e.x as int, s.scale)
            && f.y as int == TruncDiv(e.y as int, s.scale))
      && (!IsPositional(e.eventType) ==> f == e)
  {
  }

  /** An event that is neither damage nor reported on the mirror causes no request. */
  lemma OtherEventsDropped(s: Session, e: Event)
    requires s.Valid() && !IsDamage(s, e) && e.window != s.mirror
    ensures Step(s, e) == []
  {
  }

  /**
   * For a pointer position at or right of / below the mirror's origin, the
   * forwarded position is the source pixel whose scale-by-scale block of
   * mirror pixels holds it.
   */
  lemma RelayBrackets(s: Session, e: Event)
    requires s.Valid() && IsPositional(e.eventType) && e.x >= 0 && e.y >= 0
    ensures var f := Relay(s, e);
      && f.x as int * s.scale <= e.x as int < (f.x as int + 1) * s.scale
      && f.y as int * s.scale <= e.y as int < (f.y as int + 1) * s.scale
  {
    TruncDivBrackets(e.x as int, s.scale);
    TruncDivBrackets(e.y as int, s.scale);
  }

  /** Mirror coordinates on the scale grid map back exactly, whatever their sign. */
  lemma RelayExact(s: Session, e: Event, kx: int, ky: int)
    requires s.Valid() && IsPositional(e.eventType)
    requires e.x as int == kx * s.scale && e.y as int == ky * s.scale
    ensures Relay(s, e).x as int == kx && Relay(s, e).y as int == ky
  {
    TruncDivExact(kx, s.scale);
    TruncDivExact(ky, s.scale);
  }

  /**
   * Left of or above the mirror the division rounds toward zero, not down:
   * the scale - 1 positions just outside the mirror's left (top) edge are
   * forwarded as column (row) 0 of the source, not as -1.
   */
  lemma RelayNegative(s: Session, e: Event)
    requires s.Valid() && IsPositional(e.eventType)
    ensures e.x < 0 ==> Relay(s, e).x as int == -(-(e.x as int) / s.scale)
    ensures e.y < 0 ==> Relay(s, e).y as int == -(-(e.y as int) / s.scale)
    ensures -s.scale < e.x as int < 0 ==> Relay(s, e).x == 0
    ensures -s.scale < e.y as int < 0 ==> Relay(s, e).y == 0
  {
    if e.x < 0 {
      NegativeTowardZero(e.x as int, s.scale);
    }
    if e.y < 0 {
      NegativeTowardZero(e.y as int, s.scale);
    }
  }

  lemma NegativeTowardZero(v: int, b: int)
    requires v < 0 && b >= 1
    ensures TruncDiv(v, b) == -(-v / b)
    ensures -b < v ==> TruncDiv(v, b) == 0
  {
    TruncDivNegate(-v, b);
    assert -(-v) == v;
    TruncDivIsFloor(-v, b);
    if -b < v {
      TruncDivSmall(v, b);
    }
  }

  /** Forwarded positions keep the order of the mirror positions they came from. */
  lemma RelayMonotone(s: Session, e: Event, e': Event)
    requires s.Valid() && IsPositional(e.eventType) && IsPositional(e'.eventType)
    requires e.x <= e'.x && e.y <= e'.y
    ensures Relay(s, e).x <= Relay(s, e').x && Relay(s, e).y <= Relay(s, e').y
  {
    TruncDivMonotone(e.x as int, e'.x as int, s.scale);
    TruncDivMonotone(e.y as int, e'.y as int, s.scale);
  }

  // ---------------------------------------------------------------------------
  // Setup and the loop together

  /**
   * The mirror is created as a child of the root window of the source's
   * screen, at the source's x and y (relative to the source's own parent),
   * with the source's border, the source's event mask and the source's size
   * times the scale factor, and
   * every refresh copy in any run covers exactly that size.
   */
  lemma MirrorMatchesCopy(source: XId, scale: int, attrs: Attributes,
                          mirror: XId, base: int, damage: XId, gc: XId, es: seq<Event>)
    requires scale >= 1
    ensures var s := Setup(source, scale, attrs, mirror, base, damage, gc);
      var g := MirrorGeometry(attrs, s);
      && g.width == attrs.width * scale && g.height == attrs.height * scale
      && g.parent == attrs.root && g.x == attrs.x && g.y == attrs.y
      && g.borderWidth == attrs.borderWidth && g.eventMask == attrs.allEventMasks
      && forall a <- Trace(s, es) | a.CopyArea? ::
           a.srcX == 0 && a.srcY == 0 && a.dstX == 0 && a.dstY == 0
           && a.width == g.width && a.height == g.height
  {
    var s := Setup(source, scale, attrs, mirror, base, damage, gc);
    var t := Trace(s, es);
    TraceWellFormed(s, es);
    forall a <- t | a.CopyArea?
      ensures a == FullCopy(s)
    {
      var i :| 0 <= i < |t| && t[i] == a;
      assert WellPlaced(s, t, i);
    }
  }

  /** A pointer position inside the mirror is forwarded as a position inside the source. */
  lemma MirrorInsideMapsInside(source: XId, scale: int, attrs: Attributes,
                               mirror: XId, base: int, damage: XId, gc: XId, e: Event)
    requires scale >= 1 && IsPositional(e.eventType)
    ensures var s := Setup(source, scale, attrs, mirror, base, damage, gc);
      && (0 <= e.x as int < s.scaledWidth ==> 0 <= Relay(s, e).x as int < attrs.width)
      && (0 <= e.y as int < s.scaledHeight ==> 0 <= Relay(s, e).y as int < attrs.height)
  {
    if 0 <= e.x as int < attrs.width * scale {
      InsideBlock(e.x as int, scale, attrs.width);
    }
    if 0 <= e.y as int < attrs.height * scale {
      InsideBlock(e.y as int, scale, attrs.height);
    }
  }

  /**
   * Every source pixel is reached from inside the mirror: the mirror position
   * (c * scale, r * scale) lies inside the mirror and is forwarded as (c, r).
   */
  lemma SourcePixelReached(source: XId, scale: int, attrs: Attributes,
                           mirror: XId, base: int, damage: XId, gc: XId, e: Event, c: int, r: int)
    requires scale >= 1 && IsPositional(e.eventType)
    requires 0 <= c < attrs.width && e.x as int == c * scale
    requires 0 <= r < attrs.height && e.y as int == r * scale
    ensures var s := Setup(source, scale, attrs, mirror, base, damage, gc);
      && 0 <= e.x as int < s.scaledWidth && Relay(s, e).x as int == c
      && 0 <= e.y as int < s.scaledHeight && Relay(s, e).y as int == r
  {
    TruncDivExact(c, scale);
    TruncDivExact(r, scale);
    MultipleInside(c, scale, attrs.width);
    MultipleInside(r, scale, attrs.height);
  }

  /** The first multiple of b in each of the first n blocks lies below n * b. */
  lemma MultipleInside(c: int, b: int, n: int)
    requires b >= 1 && 0 <= c < n
    ensures 0 <= c * b < n * b
  {
    MulNonNeg(c, b);
    MulNonNeg(n - c - 1, b);
    assert n * b == c * b + b + (n - c - 1) * b;
  }

  /** A non-negative position below n * b lies in one of the first n blocks. */
  lemma InsideBlock(a: int, b: int, n: int)
    requires b >= 1 && 0 <= a < n * b
    ensures 0 <= TruncDiv(a, b) < n
  {
    var q := TruncDiv(a, b);
    TruncDivSignOfDividend(a, b);
    assert q * b <= a by {
      TruncDivBrackets(a, b);
    }
    if q >= n {
      MulLe(n, q, b);
      assert false;
    }
  }

  // ---------------------------------------------------------------------------
  // Runs

  /** Runs compose: the requests of two stretches of events, one after the other. */
  lemma {:induction false} TraceAppend(s: Session, a: seq<Event>, b: seq<Event>)
    requires s.Valid()
    ensures Trace(s, a + b) == Trace(s, a) + Trace(s, b)
    decreases |b|
  {
    if b == [] {
      assert a + b == a;
    } else {
      var b' := b[..|b| - 1];
      var e := b[|b| - 1];
      assert (a + b)[..|a + b| - 1] == a + b';
      assert (a + b)[|a + b| - 1] == e;
      TraceAppend(s, a, b');
    }
  }

  /** A run over one event makes that event's requests. */
  lemma TraceSingle(s: Session, e: Event)
    requires s.Valid()
    ensures Trace(s, [e]) == Step(s, e)
  {
    assert [e][..0] == [];
  }

  /** Every run's requests have the shape WellFormed describes. */
  lemma {:induction false} TraceWellFormed(s: Session, es: seq<Event>)
    requires s.Valid()
    ensures WellFormed(s, Trace(s, es))
  {
    if es != [] {
      var e := es[|es| - 1];
      TraceWellFormed(s, es[..|es| - 1]);
      var u := Step(s, e);
      assert WellFormed(s, u) by {
        if |u| == 2 { assert WellPlaced(s, u, 0) && WellPlaced(s, u, 1); }
        if |u| == 1 { assert WellPlaced(s, u, 0); }
      }
      WellFormedAppend(s, Trace(s, es[..|es| - 1]), u);
    }
  }

  /** Dropping an event that causes no request leaves the rest of the run as it was. */
  lemma DroppedEventInvisible(s: Session, a: seq<Event>, e: Event, b: seq<Event>)
    requires s.Valid() && !IsDamage(s, e) && e.window != s.mirror
    ensures Trace(s, a + [e] + b) == Trace(s, a + b)
  {
    TraceAppend(s, a + [e], b);
    TraceAppend(s, a, [e]);
    TraceAppend(s, a, b);
    TraceSingle(s, e);
  }

  /** n refreshes: n copies, each followed by its subtract. */
  function Refreshes(s: Session, n: nat): seq<Action>
  {
    if n == 0 then [] else Refreshes(s, n - 1) + [FullCopy(s), DamageSubtract(s.damage)]
  }

  /** N damage notifications in a row give exactly N copy/subtract pairs. */
  lemma {:induction false} DamageBurst(s: Session, es: seq<Event>)
    requires s.Valid()
    requires forall i | 0 <= i < |es| :: IsDamage(s, es[i])
    ensures Trace(s, es) == Refreshes(s, |es|)
  {
    if es != [] {
      DamageBurst(s, es[..|es| - 1]);
    }
  }

  datatype Kind = Copy | Subtract | Send

  function KindOf(a: Action): Kind
  {
    match a
    case CopyArea(_, _, _, _, _, _, _, _, _) => Copy
    case DamageSubtract(_) => Subtract
    case SendEvent(_, _, _, _) => Send
  }

  /** How many requests of kind k a trace holds. */
  function Count(t: seq<Action>, k: Kind): nat
  {
    if t == [] then 0
    else Count(t[..|t| - 1], k) + (if KindOf(t[|t| - 1]) == k then 1 else 0)
  }

  /** The events a trace sends, in order. */
  function Sent(t: seq<Action>): seq<Event>
  {
    if t == [] then []
    else Sent(t[..|t| - 1]) + (if t[|t| - 1].SendEvent? then [t[|t| - 1].event] else [])
  }

  /** The damage notifications among the events. */
  function DamageCount(s: Session, es: seq<Event>): nat
  {
    if es == [] then 0
    else DamageCount(s, es[..|es| - 1]) + (if IsDamage(s, es[|es| - 1]) then 1 else 0)
  }

  /** The events reported on the mirror that are not damage notifications, in order. */
  function MirrorInput(s: Session, es: seq<Event>): seq<Event>
  {
    if es == [] then []
    else MirrorInput(s, es[..|es| - 1]) + (if IsMirrorInput(s, es[|es| - 1]) then [es[|es| - 1]] else [])
  }

  lemma {:induction false} CountAppend(t: seq<Action>, u: seq<Action>, k: Kind)
    ensures Count(t + u, k) == Count(t, k) + Count(u, k)
    decreases |u|
  {
    if u == [] {
      assert t + u == t;
    } else {
      assert (t + u)[..|t + u| - 1] == t + u[..|u| - 1];
      CountAppend(t, u[..|u| - 1], k);
    }
  }

  lemma {:induction false} SentAppend(t: seq<Action>, u: seq<Action>)
    ensures Sent(t + u) == Sent(t) + Sent(u)
    decreases |u|
  {
    if u == [] {
      assert t + u == t;
    } else {
      assert (t + u)[..|t + u| - 1] == t + u[..|u| - 1];
      SentAppend(t, u[..|u| - 1]);
    }
  }

  /** What one event contributes to the counts and to the sent events. */
  lemma StepProjections(s: Session, e: Event)
    requires s.Valid()
    ensures Count(Step(s, e), Copy) == (if IsDamage(s, e) then 1 else 0)
    ensures Count(Step(s, e), Subtract) == (if IsDamage(s, e) then 1 else 0)
    ensures Sent(Step(s, e)) == if IsMirrorInput(s, e) then [Relay(s, e)] else []
  {
    var u := Step(s, e);
    if IsDamage(s, e) {
      var c, d := FullCopy(s), DamageSubtract(s.damage);
      assert u[..1] == [c] && [c][..0] == [];
      assert Count([c], Copy) == Count([c][..0], Copy) + 1;
      assert Count([c], Subtract) == Count([c][..0], Subtract) + 0;
      assert Sent([c]) == Sent([c][..0]) + [];
    } else if |u| == 1 {
      assert u[..0] == [];
    }
  }

  /**
   * Over any run, the mirror is refreshed once per damage notification, and
   * the damage is cleared as many times.
   */
  lemma {:induction false} OneRefreshPerDamage(s: Session, es: seq<Event>)
    requires s.Valid()
    ensures Count(Trace(s, es), Copy) == DamageCount(s, es)
    ensures Count(Trace(s, es), Subtract) == DamageCount(s, es)
  {
    if es != [] {
      var e := es[|es| - 1];
      OneRefreshPerDamage(s, es[..|es| - 1]);
      CountAppend(Trace(s, es[..|es| - 1]), Step(s, e), Copy);
      CountAppend(Trace(s, es[..|es| - 1]), Step(s, e), Subtract);
      StepProjections(s, e);
    }
  }

  /**
   * Over any run, what reaches the source window is exactly the mirror's own
   * input, in arrival order, each event rewritten by Relay.
   */
  lemma {:induction false} ForwardsMirrorInput(s: Session, es: seq<Event>)
    requires s.Valid()
    ensures var sent, input := Sent(Trace(s, es)), MirrorInput(s, es);
      && |sent| == |input|
      && forall i | 0 <= i < |input| :: sent[i] == Relay(s, input[i])
  {
    if es != [] {
      var e := es[|es| - 1];
      var es' := es[..|es| - 1];
      ForwardsMirrorInput(s, es');
      SentAppend(Trace(s, es'), Step(s, e));
      StepProjections(s, e);
    }
  }

  // ---------------------------------------------------------------------------
  // A worked run

  /**
   * Scale 2, source 100x50: the mirror is 200x100; a button press at mirror
   * (150, 80) reaches the source at (75, 40); a damage notification copies
   * 200x100; a key press at (5, 7) with scale 3 reaches the source at (1, 2).
   */
  lemma Example(attrs: Attributes, rest: seq<bv8>)
    requires attrs.width == 100 && attrs.height == 50
    ensures var s := Setup(1, 2, attrs, 2, 91, 3, 4);
      var press := Event(ButtonPress, 2, 150, 80, rest);
      var damage := Event(91, 1, 0, 0, rest);
      && MirrorGeometry(attrs, s).width == 200 && MirrorGeometry(attrs, s).height == 100
      && Trace(s, [press, damage]) ==
           [SendEvent(1, false, 0, Event(ButtonPress, 2, 75, 40, rest)),
            CopyArea(1, 2, 4, 0, 0, 200, 100, 0, 0),
            DamageSubtract(3)]
    ensures var s := Setup(1, 3, attrs, 2, 91, 3, 4);
      Relay(s, Event(KeyPress, 2, 5, 7, rest)) == Event(KeyPress, 2, 1, 2, rest)
  {
    var s := Setup(1, 2, attrs, 2, 91, 3, 4);
    var press := Event(ButtonPress, 2, 150, 80, rest);
    var damage := Event(91, 1, 0, 0, rest);
    assert [press, damage][..1] == [press];
    assert Trace(s, [press]) == Trace(s, []) + Step(s, press);
  }
}
