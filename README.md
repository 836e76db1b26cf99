# xpand event loop, modelled in Dafny

xpand is meant to show a magnified, live mirror of another X11 window. It
creates a mirror window `scale` times the source's size and relays input on
the mirror back to the source. After setup, its
single function `XpandWindow` (xpand.c) runs an endless loop over the X event
queue that does one of three things with each event:

- an event whose code equals the damage extension's event base: an
  `XCopyArea` of a `scaled_width` x `scaled_height` rectangle from the
  source's origin to the mirror's origin, then clear the accumulated damage
  (`XDamageSubtract`);
- any other event reported on the mirror window: for ButtonPress,
  ButtonRelease, KeyPress, KeyRelease and MotionNotify divide `x` and `y` by
  the scale factor with C's `/=`, then forward the event to the source window
  (`XSendEvent` with propagate False and an empty event mask);
- anything else: drop it.

The model keeps that shape:

- `CDivision` (c_division.dfy) defines C's truncating integer division,
  `TruncDiv`, by the C standard's contract (the remainder is smaller than the
  divisor and has the sign of the dividend), proves that contract determines
  the quotient, and proves how it relates to Dafny's Euclidean `/`.
- `XEvents` (xevents.dfy) holds the X event codes and an `Event` with its
  type, its window, its `x` and `y` (C `int`s, modelled as `Int32`), and
  the rest of the union as opaque bytes.
- `Xpand` (xpand.dfy) holds the fixed parameters of a run (`Session`), the
  mirror size computed at setup (`Setup`), the server requests as an `Action`
  datatype, the specification of one event (`Step`) and of a run (`Trace`),
  and the loop itself as methods: `Dispatch` is one iteration of the loop
  body, written like the C code (the type switch, the in-place rewrite of the
  event), and `Run` is the loop over a finite event sequence appending to a
  trace of requests.
- `XpandProperties` (xpand_properties.dfy) proves what a caller can rely on:
  per event, per run, and across setup and the loop.

A damage notification is meant to concern the source window. The loop,
however, recognises one by its event code alone. It does not check that the
notification names the source window or the damage object it created
(xpand.c:74), and the model does the same (`IsDamage`).

## Model

| member | source | states |
|---|---|---|
| CDivision.TruncDiv | xpand.c:83-93 | C's `/` on `int`: the remainder `a - q*b` is smaller than `b` in magnitude and is zero or has the sign of `a` |
| CDivision.Quot | xpand.c:83-93 | the quotient of the magnitudes: `m*d <= n < m*d + d` |
| CDivision.TruncDivUnique | xpand.c:83-93 | those two conditions determine the quotient, so `TruncDiv` is exactly C's truncating division |
| CDivision.TruncDivIsFloor | xpand.c:83-93 | for `a >= 0` and `b >= 1` C's quotient equals the floor quotient `a / b` |
| CDivision.TruncDivBrackets | xpand.c:83-93 | for `a >= 0`, `b >= 1`: `q*b <= a < (q+1)*b` |
| CDivision.TruncDivExact | xpand.c:83-93 | `(k*b)/b == k` for every integer `k`, negative ones included |
| CDivision.TruncDivNegate | xpand.c:83-93 | truncation is symmetric: `(-a)/b == -(a/b)` |
| CDivision.TruncDivNegativeDividend | xpand.c:83-93 | for `a < 0` C's quotient is the floor when `b` divides `a` and one more than the floor otherwise |
| CDivision.TruncDivSmall | xpand.c:83-93 | a dividend smaller than the divisor in magnitude gives 0 |
| CDivision.TruncDivShrinks | xpand.c:83-93 | dividing never grows the magnitude, so the rewritten coordinate still fits a C `int` |
| CDivision.TruncDivMonotone | xpand.c:83-93 | for `b >= 1` division preserves `<=` |
| Xpand.Descale | xpand.c:83-93 | `c /= scale` on a C `int`: the remainder `c - r*scale` is below `scale` and zero or of `c`'s sign (C's contract for `/`), and `|r| <= |c|`, so the result fits an `int` |
| Xpand.Relay | xpand.c:80-95 | the event as the switch leaves it; its properties are stated by RelayBrackets, RelayExact, RelayNegative, RelayMonotone and MirrorInputForwarded |
| Xpand.Step | xpand.c:74-99 | the requests one event causes; its properties are stated by DamageRefreshes, DamageTakesPrecedence, MirrorInputForwarded, OtherEventsDropped, and `Dispatch` is proved to issue exactly these |
| Xpand.Trace | xpand.c:70-100 | the requests of a run, in arrival order; its properties are stated by TraceAppend, TraceWellFormed, DroppedEventInvisible, DamageBurst, OneRefreshPerDamage and ForwardsMirrorInput, and `Run` is proved to issue exactly these |
| Xpand.MirrorGeometry | xpand.c:54-58 | the arguments `XCreateWindow` is given for the mirror; stated by MirrorMatchesCopy |
| Xpand.FullCopy | xpand.c:76 | the `XCopyArea` request of each refresh; stated by DamageRefreshes and MirrorMatchesCopy |
| Xpand.Setup | xpand.c:51-52 | the session handed to the loop keeps the scale factor (positive) and the window, damage and GC ids, and its mirror size divides back exactly to the source size: `scaled_width / scale == width`, `scaled_height / scale == height` |
| Xpand.Dispatch | xpand.c:74-99 | one loop iteration, with the in-place coordinate rewrite of the switch, issues exactly `Step`'s requests, and they are well formed |
| Xpand.Run | xpand.c:69-100 | the loop over an event sequence issues the per-event requests concatenated in arrival order, and the trace keeps the well-formedness invariant (every copy is the full copy followed by its subtract; every send goes to the source, unpropagated, mask 0) |
| XpandProperties.DamageRefreshes | xpand.c:74-77 | a damage notification yields exactly one copy of `scaledWidth` x `scaledHeight` from source (0,0) to mirror (0,0), then one subtract of the session's damage object, and no send |
| XpandProperties.DamageTakesPrecedence | xpand.c:74-78 | the damage test comes before the window test: a damage notification is handled the same whatever window it names, the mirror included |
| XpandProperties.MirrorInputForwarded | xpand.c:78-98 | every non-damage event on the mirror, of any type, is sent once to the source with propagate false and mask 0; type, window and the rest of the payload are unchanged; `x`, `y` become C `x/scale`, `y/scale` exactly for the five positional types and the event is unchanged otherwise |
| XpandProperties.OtherEventsDropped | xpand.c:74-99 | an event that is neither damage nor on the mirror causes no request |
| XpandProperties.RelayBrackets | xpand.c:80-94 | for non-negative mirror coordinates the forwarded `x'` satisfies `x'*scale <= x < (x'+1)*scale`, likewise `y` |
| XpandProperties.RelayExact | xpand.c:80-94 | mirror coordinates `k*scale` are forwarded as `k`, for any sign of `k` |
| XpandProperties.RelayNegative | xpand.c:80-94 | a negative mirror coordinate is forwarded as `-((-x)/scale)`, likewise `y`; the `scale-1` positions just left of (above) the mirror all become column (row) 0, not -1 |
| XpandProperties.RelayMonotone | xpand.c:80-94 | forwarded coordinates keep the order of the mirror coordinates |
| XpandProperties.MirrorMatchesCopy | xpand.c:51-76 | the mirror is created with the root window of the source's screen (`attrs.root`) as parent, the source's `x`, `y` (relative to the source's own parent), border and event mask (xpand.c:54), and size `width*scale` x `height*scale`, and every copy in any run covers exactly that size from (0,0) to (0,0) |
| XpandProperties.MirrorInsideMapsInside | xpand.c:83-93 | a positional event inside the mirror (`0 <= x < width*scale`) is forwarded inside the source (`0 <= x' < width`), likewise `y` |
| XpandProperties.SourcePixelReached | xpand.c:83-93 | every source pixel `(c, r)` with `c < width`, `r < height` is reached from the mirror position `(c*scale, r*scale)`, which lies inside the mirror |
| XpandProperties.TraceAppend | xpand.c:70-100 | the requests of two stretches of events are those of the first followed by those of the second |
| XpandProperties.TraceWellFormed | xpand.c:70-100 | every run's trace is well formed (copy always followed by its subtract; sends always to the source, unpropagated, mask 0) |
| XpandProperties.DroppedEventInvisible | xpand.c:78-99 | removing an event that is neither damage nor on the mirror does not change a run's requests |
| XpandProperties.DamageBurst | xpand.c:70-77 | N damage notifications in a row give exactly N copy/subtract pairs |
| XpandProperties.OneRefreshPerDamage | xpand.c:70-77 | over any run, the number of copies and the number of subtracts each equal the number of damage notifications |
| XpandProperties.ForwardsMirrorInput | xpand.c:78-98 | over any run, the events sent are exactly the non-damage events on the mirror, in arrival order, each rewritten by `Relay` |
| XpandProperties.Example | xpand.c:51-98 | scale 2, source 100x50: mirror 200x100; a button press at (150, 80) is forwarded at (75, 40); a damage notification copies 200x100; with scale 3 a key press at (5, 7) is forwarded at (1, 2) |

## Left out

- Opening the display and checking the Composite, Damage and Render extensions (xpand.c:20-43): foreign calls; the damage event base is a parameter of `Setup`.
- Reading the source window's attributes (xpand.c:45-48): the attributes are taken as input. `XGetWindowAttributes` returns a status that is zero on failure and never negative, so the test `< 0` at xpand.c:46 never holds and its message is never printed; on a bad window id Xlib's error handler takes over (by default it reports the error and exits), and otherwise the code goes on with whatever `attrs` holds. The model takes the attributes as read.
- The scale matrix (xpand.c:50): built but never used.
- Creating and mapping the mirror, naming the composite pixmap, creating the damage object and the graphics context (xpand.c:54-67): X resource acquisition; their ids are parameters of `Setup`. Only the mirror's geometry is modelled (`MirrorGeometry`).
- Setup: does not model C `int` overflow of `attrs.width * scale` and `attrs.height * scale`; the sizes are unbounded integers.
- Setup: requires a scale factor of at least 1. This is an assumption about the caller; `XpandWindow` itself accepts any `int`. With a scale of 0 the divisions at xpand.c:83-93 divide by zero (undefined behaviour), and with a negative scale xpand.c:51-52 compute negative window sizes. The C division itself (`TruncDiv`) is modelled for every non-zero divisor.
- Magnification of the pixels: as written nothing scales them. `XCopyArea` copies pixels one to one, with its width and height giving the size of both rectangles, so each refresh puts the source's pixels, unmagnified, into the mirror's top-left corner. The scale matrix (xpand.c:50) is never attached to a picture, and the composite pixmap (xpand.c:65) is never read. The model records the request as written (`FullCopy`).
- Where the mirror appears on screen: the source's `x`, `y` are relative to its own parent (a window manager's frame, once the source is reparented), but the mirror is created as a child of the root window at those same numbers (xpand.c:55-56), so the two need not line up. The model records the arguments as passed (`MirrorGeometry`).
- What the X server does with the requests: the pixels `XCopyArea` copies, how `XDamageSubtract` clears damage, and how `XSendEvent` delivers (including setting the event's send_event flag); the model records the requests only.
- The blocking `XNextEvent` wait and the endless loop (xpand.c:70-73): the queue is a finite sequence, so `Run` models every finite prefix of a run.
- Failures of `XCopyArea` or `XSendEvent` (for example a destroyed source window): Xlib reports them asynchronously through its error handler, outside this function.
- The diagnostic output (xpand.c:22-47, 63, 96).
- The teardown after the loop (xpand.c:101-105): unreachable.
