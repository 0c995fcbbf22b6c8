# glow engine core, modelled in Dafny

This project models the core of an early snapshot of the *glow* Native Client
drawing engine (DirtyHairy/nacl-glow) and proves properties of it. The core has five parts:

- **`Surface`** (`surface.dfy`, module `GlowSurface`). A `width x height` single-channel `uint8_t`
  framebuffer, stored row-major and zeroed on construction. `Decay` maps every
  cell `v` to `max(0, v * 95 / 100 - 1)` in place. `Line` walks a gap-free
  digital line column by column with a truncating interpolation and sets every
  visited cell to 255.
- **`GrayscaleBuffer`** (`grayscale_buffer.dfy`, module `GlowGrayscaleBuffer`). The predecessor of
  `Surface`, with the same storage but addressed `x * width + y`.
- **`Settings`** (`settings.dfy`, module `GlowSettings`). Five tuning parameters with defaults,
  getters and chainable setters that store their argument as given.
- **The message API** (`api.dfy`, module `GlowApi`). It typechecks a page message
  (a `pp::Var`, here the datatype `Var`) and dispatches on `subject`:
  - `requestSettings` is answered with a `settingsBroadcast` snapshot;
  - `changeSettings` updates the settings all-or-nothing, through a copy that is assigned back;
  - anything malformed is answered with an `error` message that echoes the message.

  The `EInvalidMessage` exception is the `Invalid` case of a `Result`. Posted
  messages are an outbox sequence.
- **The plugin instance** (`instance.dfy`, module `GlowInstance`). It turns mouse events into renderer
  calls (`SetDrawing`, `MoveTo`, `DrawTo`) and keeps a `drawing` flag. It
  creates its renderer on the first view change. The renderer is modelled by
  the sequence of calls made on it.

`cint.dfy` (module `CInt`) holds the C++ integer types `uint8_t`, `uint32_t`
and `int32_t`, and the conversions between them. It also holds C++'s
truncating division, which `Line` needs because its interpolation divides
negative operands.

The mutable entities are classes whose methods are proved against
specification functions:
- `Surface.Decay` against `DecayAll`;
- `Surface.Line` against `Segment.Covers`;
- `Api.HandleMessage` against `Respond`;
- `Instance.HandleInputEvent` against `OnInput`. The instance also carries a ghost event history, and its state is always `Run` of that history.

Some behaviour of the code is easy to mistake for something else; the model
states it as the code does it:
- The setters store their argument unchanged, with no clamping. `Fps(0)` stores 0.
  The only range limiting is the parameter type: `decayLin` and `fps` from a
  message arrive truncated mod 256, and a negative `radius` wraps mod 2^32.
- `changeSettings` ignores keys other than the five settings. It does not reject them.
- `Decay` reads neither `bleed` nor `decay_exp`: it subtracts a fixed 5% and 1
  from every cell, in place, in a single buffer.
- `Line` sets single cells to 255; it draws no circles. It does not check that its
  endpoints are in range, so the model requires it.
- The snapshot sends `radius` as an `int32_t`, so a radius of 2^31 or more is
  reported as a negative number. The model keeps this conversion
  (`CInt.ToI32`). The round trip still restores the radius, because reading
  it back wraps mod 2^32.

## Model

| member | source | states |
|---|---|---|
| CInt.ToU8 | surface.h:18-20 | Storing an integer into a `uint8_t` keeps its low 8 bits: the identity on 0..255, congruent mod 256 otherwise |
| CInt.ToU32 | surface.cc:10 | `uint32_t` arithmetic keeps the low 32 bits: the identity on 0..2^32-1, congruent mod 2^32 otherwise |
| CInt.ToI32 | api.cc:114 | `static_cast<int32_t>` of a `uint32_t` converts back to the same `uint32_t`, and is the identity up to INT32_MAX |
| CInt.TruncDiv | surface.cc:39 | C++ `/` truncates toward zero: the remainder is smaller than the divisor in magnitude and is zero or has the dividend's sign |
| GlowSurface.RowMajorInBounds | surface.h:14-16 | Every cell with x < width and y < height has its row-major index `y * width + x` below `width * height` |
| GlowSurface.RowMajorInjective | surface.h:18-20 | Distinct in-range cells have distinct row-major indices, so `Set` on one cell cannot touch another |
| GlowSurface.Surface.constructor | surface.cc:7-14 | The dimensions are stored, `area` is the 32-bit product (the true product when it fits), the buffer has `area` cells and all of them are 0 |
| GlowSurface.Surface.GetArea | surface.h:22-24 | Returns the buffer's length, which is `width * height` when the product fits 32 bits |
| GlowSurface.Surface.Get | surface.h:14-16 | Returns a hue below 256 equal to the pixel at (x, y) of the row-major grid |
| GlowSurface.Surface.Set | surface.h:18-20 | Afterwards `Get(x, y)` is `hue mod 256`, and every other buffer cell and every other pixel is unchanged |
| GlowSurface.DecayHue | surface.cc:24-25 | The decayed hue is never larger than the old one, drops by at least 2 unless it reaches 0, and is at most 241 |
| GlowSurface.DecayAll | surface.cc:23-26 | One decay step keeps the buffer's length and maps each cell from its own old hue only |
| GlowSurface.DecayTimes | surface.cc:20-27 | Repeated decay keeps the buffer's length |
| GlowSurface.DecayTimesBound | surface.cc:24-25 | After n decay steps every cell is 0 or at least 2n below its starting hue |
| GlowSurface.DecayReachesZero | surface.cc:20-27 | After 128 or more decay steps every buffer is all zero |
| GlowSurface.DecayKeepsZero | surface.cc:24-25 | An all-zero buffer is a fixed point of any number of decay steps |
| GlowSurface.DecayMonotone | surface.cc:24 | Decay preserves the order of hues |
| GlowSurface.Surface.Decay | surface.cc:20-27 | In place, every cell becomes `max(0, v * 95 / 100 - 1)` of its own old value |
| GlowSurface.Segment.Row | surface.cc:39 | The interpolated row `ny` passes through both endpoints: y1 in column x1 (when dx != 0) and y2 in column x2 |
| GlowSurface.Segment.RunStart | surface.cc:37-38 | The row a column's run starts from lies between y1 and y2 for every column from x1 to x2 |
| GlowSurface.Segment.Covers | surface.cc:36-44 | Every cell the walk sets lies in the bounding rectangle of the two endpoints |
| GlowSurface.RowFormula | surface.cc:39 | The truncated interpolation `y1 + dy * (x - x1) / dx` is y1 moved toward y2 by floor(abs(dy) * abs(x - x1) / abs(dx)) |
| GlowSurface.RowInSpan | surface.cc:39 | The interpolated row `ny` of every column lies between y1 and y2 |
| GlowSurface.RowAdvances | surface.cc:37-43 | From one column to the next, `ny` never moves back away from y2, so the inner loop terminates |
| GlowSurface.RunInSpan | surface.cc:37-43 | Each column's run starts at the previous column's end row (y1 for the first) and moves toward y2 without passing it |
| GlowSurface.LineCoversEndpoints | surface.cc:34-43 | Both endpoints (x1, y1) and (x2, y2) are set |
| GlowSurface.LineGapFree | surface.cc:37-43 | Every column from x1 to x2 gets a non-empty run, and each run starts on a row the previous column also set |
| GlowSurface.LinePoint | surface.cc:30-44 | A zero-length line sets exactly one cell |
| GlowSurface.LineVertical | surface.cc:39 | With x1 == x2 (the `dx == 0` branch) exactly the vertical run from y1 to y2 is set |
| GlowSurface.LineHorizontal | surface.cc:30-44 | With y1 == y2 exactly the horizontal run from x1 to x2 is set |
| GlowSurface.WalkedNextColumn | surface.cc:37-39 | Moving into the next column and stepping one row back, ahead of its run, marks no new cell as set |
| GlowSurface.WalkedGrows | surface.cc:40-42 | Each inner-loop step sets exactly one more cell, the one it moves to |
| GlowSurface.Surface.Line | surface.cc:29-45 | The nested loops terminate; afterwards the cells the walk covers hold 255 and every other cell keeps its hue |
| GlowGrayscaleBuffer.TransposedInBounds | grayscale_buffer.h:14-20 | The transposed index `x * width + y` is below `width * height` when x < height and y < width |
| GlowGrayscaleBuffer.TransposedIndexEscapes | grayscale_buffer.h:14-20 | On a 2 x 1 buffer, cell (1, 0) has x < width and y < height, yet its index is 2, one past the last cell |
| GlowGrayscaleBuffer.GrayscaleBuffer.constructor | grayscale_buffer.cc:7-14 | The dimensions are stored as passed, `area` is the 32-bit product, the buffer has `area` cells and all of them are 0 |
| GlowGrayscaleBuffer.GrayscaleBuffer.GetArea | grayscale_buffer.h:22-24 | Returns the buffer's length, which is `width * height` when the product fits 32 bits |
| GlowGrayscaleBuffer.GrayscaleBuffer.Get | grayscale_buffer.h:14-16 | Returns the `uint8_t` hue at the transposed index, below 256 |
| GlowGrayscaleBuffer.GrayscaleBuffer.Set | grayscale_buffer.h:18-20 | Afterwards `Get(x, y)` is `hue mod 256` and every other cell is unchanged |
| GlowSettings.Settings.constructor | settings.cc:5-11 | The defaults are bleed 0.95, decay_exp 0.02, decay_lin 1, fps 20, radius 3 |
| GlowSettings.Settings.Copy | api.cc:127 | The copy holds the same five values as the original |
| GlowSettings.Settings.Assign | api.cc:145 | Copy assignment gives this object exactly the other object's five values |
| GlowSettings.Settings.Bleed | settings.h:13-15 | Reads back the stored bleed |
| GlowSettings.Settings.DecayExp | settings.h:18-20 | Reads back the stored decay_exp |
| GlowSettings.Settings.DecayLin | settings.h:23-25 | Reads back the stored decay_lin |
| GlowSettings.Settings.Radius | settings.h:28-30 | Reads back the stored radius |
| GlowSettings.Settings.Fps | settings.h:33-35 | Reads back the stored fps |
| GlowSettings.Settings.SetBleed | settings.cc:13-16 | Returns the same object; `Bleed()` then reads the argument unchanged, and the other four fields are untouched |
| GlowSettings.Settings.SetDecayExp | settings.cc:18-21 | Returns the same object; `DecayExp()` then reads the argument unchanged, and the other four fields are untouched |
| GlowSettings.Settings.SetDecayLin | settings.cc:23-26 | Returns the same object; `DecayLin()` then reads the `uint8_t` argument unchanged, and the other four fields are untouched |
| GlowSettings.Settings.SetRadius | settings.cc:28-31 | Returns the same object; `Radius()` then reads the `uint32_t` argument unchanged, and the other four fields are untouched |
| GlowSettings.Settings.SetFps | settings.cc:33-36 | Returns the same object; `Fps()` then reads the argument unchanged (0 included), and the other four fields are untouched |
| GlowSettings.SetTwice | settings.h:16-36 | Chained setters act on one object, and repeating a setter with the same value changes nothing further |
| GlowApi.MessageGetString | api.cc:44-54 | Succeeds iff the key is present and holds a string, and then returns that string |
| GlowApi.MessageGetFloat | api.cc:56-66 | Succeeds iff the key is present and holds a number (int or double), and then returns its value |
| GlowApi.MessageGetInt | api.cc:68-78 | Succeeds iff the key is present and holds an int (a double is refused), and then returns it |
| GlowApi.BuildErrorMessage | api.cc:84-97 | An `error` dictionary with the description under `message`; `originalMessage` is present iff one was given and then equals it; no other keys |
| GlowApi.BuildSettingsMessage | api.cc:102-118 | A `settingsBroadcast` dictionary with exactly the five settings keys: bleed and decayExp as doubles of the current values, decayLin and fps as ints of the current values, radius as the `int32_t` cast of the current radius |
| GlowApi.SettingsMessageRoundTrip | api.cc:102-118 | Read back as a change request, a snapshot restores exactly the settings it was built from, whatever the settings were before |
| GlowApi.WellTyped | api.cc:129-143 | A message passes the setters' type checks iff every settings key it holds has its setter's type: an int for radius, decayLin and fps, any number for bleed and decayExp |
| GlowApi.ChangeSettings | api.cc:123-146 | A change succeeds iff the message is well typed; then absent keys keep their old values, bleed and decayExp take the number given, and decayLin, fps and radius take a value congruent to the given int mod 256, 256 and 2^32 |
| GlowApi.ChangeIgnoresOtherKeys | api.cc:129-143 | Keys other than the five settings do not affect a settings change |
| GlowApi.ChangeIdempotent | api.cc:123-146 | Applying the same successful change twice gives the same settings as applying it once |
| GlowApi.ApplyChangeSettingsMessage | api.cc:123-146 | Succeeds iff every present settings key has its setter's type; on success the settings take the converted values of the present keys and keep the rest; on failure nothing changes |
| GlowApi.Respond | api.cc:170-196 | A reply is either the error echo or the settings snapshot; settings change only when nothing is posted, and nothing is posted iff the message is a well-typed `changeSettings` |
| GlowApi.MalformedMessageEchoed | api.cc:172-194 | A message that is not a dictionary, lacks a string `subject`, or has an unknown subject leaves the settings alone and gets one `error` reply with "invalid message" echoing it |
| GlowApi.RequestSettingsReportsCurrent | api.cc:177-181 | `requestSettings` changes nothing and posts exactly the snapshot of the current settings: each of the five fields equals the current value (radius through the `int32_t` cast), and read back as a change it restores the current settings |
| GlowApi.ChangeSettingsAllOrNothing | api.cc:183-194 | A `changeSettings` with a wrongly typed key changes nothing and gets the error echo; otherwise it applies every present key and posts nothing |
| GlowApi.Api.constructor | api.cc:152-157 | The API starts with the instance's settings and nothing posted |
| GlowApi.Api.HandleMessage | api.cc:170-196 | Settings and outbox move exactly as `Respond` says, with at most one message posted per call |
| GlowApi.Api.Dispatch | api.cc:171-190 | The `try` block: on success it does what `Respond` says; when it throws, `Respond` gives the error echo and nothing has changed yet |
| GlowInstance.OnInput | instance.cc:75-102 | Without a renderer nothing happens and the event is unhandled; an event is handled iff a renderer exists and it is a mouse event the instance reads; `DrawTo(p)` is issued iff there is a renderer, drawing is on and the event is a mouse move to p; `MoveTo(p)` iff a mouse-down at p; `SetDrawing(true)` iff a mouse-down and `SetDrawing(false)` iff a mouse-up or mouse-leave, each with a renderer; mouse moves keep `drawing` |
| GlowInstance.Step | instance.cc:53-102 | A host event: the renderer exists afterwards iff it did before or the event is a view change; a view change stops drawing without renderer calls; drawing never holds without a renderer; at most two calls per event |
| GlowInstance.Run | instance.cc:53-102 | After any event sequence, drawing implies a renderer exists, and the renderer received at most two calls per event |
| GlowInstance.RunAppend | instance.cc:53-102 | Delivering one more host event extends the state and the renderer trace by one step |
| GlowInstance.LastRelevantAfterRelevant | instance.cc:67-89 | After a mouse-down, mouse-up, mouse-leave or view change, the last relevant event is a mouse-down iff that event was one |
| GlowInstance.LastRelevantAfterIrrelevant | instance.cc:91-101 | Mouse moves and other events leave the last relevant event unchanged |
| GlowInstance.RendererFollowsViewChange | instance.cc:56-65 | After any event sequence, the renderer exists iff the view has changed at least once |
| GlowInstance.DrawingFollowsLastRelevant | instance.cc:53-102 | After any event sequence, `drawing` holds iff the view has changed and the most recent relevant event was a mouse-down |
| GlowInstance.DrawToOnlyAfterMouseDown | instance.cc:91-95 | A `DrawTo` is issued only for a mouse move at that position, and only when the most recent relevant event was a mouse-down |
| GlowInstance.MouseDownStartsStroke | instance.cc:79-83 | Once the view has changed, a mouse-down at p turns drawing on and makes exactly the calls `SetDrawing(true)`, `MoveTo(p)` |
| GlowInstance.MouseReleaseEndsStroke | instance.cc:85-89 | Once the view has changed, a mouse-up or mouse-leave turns drawing off and makes exactly the call `SetDrawing(false)` |
| GlowInstance.MoveDrawsAfterMouseDown | instance.cc:91-95 | Once the view has changed and the most recent relevant event was a mouse-down, a mouse move to p makes exactly the call `DrawTo(p)` and keeps drawing |
| GlowInstance.PenDownAppend | instance.cc:81-88 | The renderer's pen state is set by the latest `SetDrawing` call and no other call changes it |
| GlowInstance.PenDownWhileDrawing | instance.cc:79-89 | After any event sequence, while the instance is drawing the renderer's pen is down |
| GlowInstance.DrawToWhilePenDown | instance.cc:91-95 | After any event sequence, every `DrawTo` in the renderer's trace arrived while its pen was down |
| GlowInstance.ViewChangeLeavesPenDown | instance.cc:67 | A view change during a stroke clears `drawing` without telling the renderer, whose pen stays down |
| GlowInstance.Instance.constructor | instance.cc:29-41 | No graphics, no renderer, `drawing` false, no renderer calls, default settings and a fresh API |
| GlowInstance.Instance.DidChangeView | instance.cc:53-68 | Graphics and renderer exist afterwards (created only when missing), `drawing` is reset, no renderer call is made |
| GlowInstance.Instance.HandleInputEvent | instance.cc:75-102 | The result, the new `drawing` and the calls appended to the renderer trace are those of `OnInput`; graphics and renderer are untouched |
| GlowInstance.Instance.HandleMessage | instance.cc:107-109 | Delegated to the API: settings and outbox move as `Respond` says |

## Left out

- The renderer thread, `Graphics2D` painting and flushing, and `PixelRGB` are host threading and graphics. The renderer is only the trace of calls the instance makes on it.
- `Api::BroadcastFps` and `Api::DoPostMessage` schedule a post on the main thread through `CallOnMainThread`. This cross-thread plumbing is not modelled.
- The logger, the module bootstrap in `glow.cc` and the page script `main.js` are console output, host registration and UI glue.
- Memory management (`new`, `delete`, destructors) is left out, apart from "the buffer has `area` cells and starts zeroed".
- `bleed` and `decay_exp` are `float`s that the engine only stores and copies. They are reals here, and the double-to-float narrowing in `MessageGetFloat` is not modelled.
- The view extent that `DidChangeView` passes to the graphics context is not modelled. Nothing in the core reads it.
- GlowSurface.Surface.Get: requires the row-major index, computed without 32-bit wrap-around, to be inside the buffer. The C++ index `y * width + x` wraps in `uint32_t`, and an out-of-range access is undefined.
- GlowSurface.Surface.Set: the same requirement as `Get`.
- GlowSurface.Surface.Line: requires both endpoints inside the surface, `width * height` below 2^32, and endpoints for which no `int32_t` intermediate overflows (`LineFitsInt32`). The code checks none of these. Outside them it can write past the buffer or overflow, and an endpoint outside the grid can also wrap into a neighbouring row without leaving the buffer: on a surface at least 2 rows high, `Line(0, 0, width, 0)` ends with `Set(width, 0, 255)`, which writes index `width`, the cell (0, 1).
- GlowGrayscaleBuffer.GrayscaleBuffer.Get: requires the transposed index, computed without wrap-around, to be inside the buffer. This holds when x < height and y < width (`TransposedInBounds`), not for every x < width, y < height (see Findings).
- GlowGrayscaleBuffer.GrayscaleBuffer.Set: the same requirement as `Get`.

## Findings

| source | as written | input that shows it | evidently intended | confidence | as-written member | corrected member |
|---|---|---|---|---|---|---|
| grayscale_buffer.h:14-20 | `Get`/`Set` address cell (x, y) at `x * width + y` | width 2, height 1, `Get(1, 0)`: index 2 in a buffer of 2 cells | row-major `y * width + x`, in range for every x < width and y < height, as the successor class `Surface` does | medium; not executed | GlowGrayscaleBuffer.TransposedIndexEscapes | GlowSurface.RowMajorInBounds |
