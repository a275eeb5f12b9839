# Rive-on-Vello viewer loop and LinearAnimationInstance, modelled in Dafny

This project models two pieces of the rive-cpp repository.

**The Vello viewer's event loop** (`vello/src/main.rs`). `main` runs one closure for every platform event. The closure updates the variables it captured:

- the content being shown;
- the live window and its GPU surface (`render_state`);
- the window cached across a suspend;
- the renderer;
- the pointer position;
- the scroll accumulator;
- the frame-time buffer.

In the model these variables are the fields of the class `Viewer.RenderLoop`, and each event kind has its own handler method. The pure function `Viewer.Step` states the same transition on values (`Viewer.LoopState`). Every handler is proved to produce `Step` of the old state, and the loop's invariants are proved about `Step` over any run of events. The parts of the loop are their own modules:

- `Scroll`: the wheel accumulator, floored at zero with no ceiling.
- `Mosaic`: the scroll-to-factor map, the `factor²`-copy grid built by a loop, and the placeholder fill used when there is no content.
- `FrameStats`: the 30-slot frame-time batcher and the title's copy count.

The content object, the GPU layer and the windowing layer are outside the model:

- Content is an identifier, and every call made on it goes into a log (`contentCalls`).
- A submitted frame goes into a log (`frames`) with its surface size and scene.
- A window is an identifier.
- Whatever the platform or an external call reports arrives as an event parameter: sizes, the loader's verdict and the elapsed time.

**`rive::LinearAnimationInstance`** (`include/rive/animation/linear_animation_instance.hpp`) is modelled from its inline members. These are:

- the direction setter, which normalises any `int` to +1 or -1;
- `clearSpilledTime`;
- `keepGoing`;
- `loop`;
- the getters.

`loopValue()` and the animation's `durationSeconds()` are defined outside the header, so they are fixed inputs of the instance.

`f64` and `float` quantities are `real`. The `as u32` cast is a floor.

One consequence of the floor at zero is proved as stated (`Scroll.PixelRoundTrip`, `Scroll.LineRoundTrip`). Scrolling toward more copies and then back by the same amount restores the accumulator exactly. The other order does not: scrolling toward fewer copies and then back gives the larger of the old value and the step, so the part clipped at zero is lost.

## Model

| member | source | states |
|---|---|---|
| Scroll.Apply | vello/src/main.rs:74-83 | the new accumulator is never negative, never below the old value minus the event's amount, and equals either that difference or zero (floor at 0, no ceiling) |
| Scroll.LineDeltaStep | vello/src/main.rs:75-79 | a line event moves the accumulator by exactly 100: up by 100 for negative lines, otherwise down by 100 clamped at 0, zero lines included (`signum(0.0) == 1`) |
| Scroll.ApplyMonotone | vello/src/main.rs:74-83 | the same wheel event preserves the order of two accumulator values |
| Scroll.PixelRoundTrip | vello/src/main.rs:80-82 | a pixel scroll followed by its negation yields `max(old, y)` from any non-negative accumulator |
| Scroll.LineRoundTrip | vello/src/main.rs:75-79 | a line scroll followed by its negation restores the value when the lines are negative, and yields `max(old, 100)` when they are positive |
| Mosaic.Factor | vello/src/main.rs:102 | the factor is at least 1 and is the floor of `max(scroll_delta / 100, 1)` |
| Mosaic.FactorOneBelowTwoThresholds | vello/src/main.rs:102 | the factor is 1 for every accumulator value below 200 |
| Mosaic.FactorIsFloor | vello/src/main.rs:102 | from 100 on, the factor is `floor(scroll_delta / 100)` |
| Mosaic.FactorAtMultiple | vello/src/main.rs:102 | every factor f >= 1 is reached at accumulator value `100 f` |
| Mosaic.FactorMonotone | vello/src/main.rs:102 | more accumulated scroll never gives a smaller factor |
| Mosaic.CellBijection | vello/src/main.rs:147-156 | `i -> (i mod f, i div f)` is a bijection from `0 .. f²-1` onto the f-by-f grid, inverse `row*f + col` |
| Mosaic.ComposeMosaic | vello/src/main.rs:147-159 | the appending loop builds exactly `MosaicScene`: f² copies, copy i scaled by 1/f and translated to `(col*width/f, row*height/f)` |
| Mosaic.MosaicCoversEveryCell | vello/src/main.rs:147-159 | each grid cell gets a copy at its offset with scale 1/f, and no other copy index maps to that cell |
| Mosaic.MosaicOfOneIsIdentity | vello/src/main.rs:147-159 | with factor 1 the scene is the content once under the identity transform |
| Mosaic.MosaicTilesSurface | vello/src/main.rs:147-159 | on a non-empty surface every point lies in the image of exactly one copy: no gaps and no overlaps |
| Mosaic.FrameSceneShape | vello/src/main.rs:144-169 | a frame's scene is never empty: f² content copies and nothing else, or exactly one transparent fill of the zero rectangle |
| FrameStats.Record | vello/src/main.rs:104-108 | one redraw pushes its duration; the buffer is drained exactly when it reaches 30, and the average reported is the mean of the full buffer; a buffer below 30 stays below 30 |
| FrameStats.RecordAllBatches | vello/src/main.rs:104-108 | over any run of redraws the averages reported are the means of the successive 30-blocks of everything recorded, and the buffer holds the leftover |
| FrameStats.MeansAreBatches | vello/src/main.rs:104-108 | there is one average per 30 durations, the k-th taken over exactly durations `30k .. 30k+29`, and the leftover is the incomplete last block |
| FrameStats.MeanOfConstant | vello/src/main.rs:108 | 30 equal durations average to that duration |
| FrameStats.TitleFor | vello/src/main.rs:111-118 | the title carries a copy count if and only if factor > 1, and the count is factor² |
| Viewer.Redraw | vello/src/main.rs:100-185 | a redraw changes no captured variable but the stats buffer (content, window cache, renderer, surface, cursor and accumulator stay) and only appends to the call, title and frame logs |
| Viewer.Step | vello/src/main.rs:40-228 | one event of the closure: the call, title and frame logs only grow; only a redraw touches the stats buffer, titles and frames, only a wheel event the accumulator, only a dropped file the content, only a cursor move the stored position, and only suspend and resume the window cache or whether a surface exists (which window is live never changes otherwise) |
| Viewer.InitialInv | vello/src/main.rs:27-38 | the initial variables satisfy the loop invariant |
| Viewer.StepInv | vello/src/main.rs:40-228 | every event keeps the invariant: accumulator >= 0, fewer than 30 buffered durations, window not both live and cached, renderer present whenever a surface is |
| Viewer.RunInv | vello/src/main.rs:40-228 | the invariant holds after any sequence of events |
| Viewer.WindowEventsIgnoredWhileSuspended | vello/src/main.rs:41-42 | with no render state, resize, mouse, cursor, wheel and dropped-file events change nothing |
| Viewer.RendererStaysSet | vello/src/main.rs:209-224 | once built, the renderer is never dropped by any later event, so the `unwrap` before rendering cannot fail after the first resume |
| Viewer.SuspendResumeReusesWindow | vello/src/main.rs:186-226 | from any suspended state, resume / suspend / resume: the first resume reuses the cached window or creates one, sets render state and renderer and empties the cache; the suspend moves that window to the cache; the second resume takes the same window back, sized to its size then |
| Viewer.ResumeWhileActiveIsNoOp | vello/src/main.rs:192-195 | in every state with a surface, a resume changes nothing, whatever window and size it carries |
| Viewer.SuspendCachesWindow | vello/src/main.rs:186-191 | in every state, a suspend takes the surface away and caches its window, changing nothing else; with no surface it changes nothing |
| Viewer.ResizeKeepsSurface | vello/src/main.rs:46-53 | a resize keeps the window and surface and sets the configured size to the new one |
| Viewer.PressUsesLastCursorPosition | vello/src/main.rs:54-73 | a cursor move stores the position and reports it to the content; a following left press or release is reported at that stored position |
| Viewer.MouseInputReportsStoredPosition | vello/src/main.rs:54-67 | in every state with a surface, a left press or release appends exactly one `pointer_down`/`pointer_up` call at the stored position when there is content; any other button, or no content, changes nothing |
| Viewer.StoredPositionIsLastCursorMove | vello/src/main.rs:54-73 | after a cursor move with a surface, any run of events without another cursor move (wheel, redraw, resize, suspend, resume, ...) leaves the stored position at that move's position, so a later press reports it |
| Viewer.CursorStoredWithoutContent | vello/src/main.rs:68-73 | a cursor move updates the stored position even when there is no content, and calls nothing |
| Viewer.DroppedFileReplacesContent | vello/src/main.rs:84-91 | a dropped file replaces the content with the load result; a successful load is resized to the window's inner size at once; a failed load leaves no content |
| Viewer.RedrawRecordsOneDuration | vello/src/main.rs:100-122 | every redraw records exactly one duration, even without a surface; the title changes only on the draining redraw and only while a surface exists |
| Viewer.RedrawSubmitsOneFrame | vello/src/main.rs:124-184 | with a surface, a redraw appends one frame for that window at the surface's size whose scene is `FrameScene`: with content, exactly `MosaicScene` (the f² tiled copies, after one draw call on the content), otherwise the single placeholder fill; without a surface it draws and submits nothing |
| Viewer.TitleCountsCopies | vello/src/main.rs:104-168 | the draining redraw with a surface records exactly one title, `TitleFor` of the mean of the full buffer and the current factor, so it reports f² copies whenever f > 1 whether or not there is content; with content the frame it draws holds f² copies, without content only the single placeholder |
| Viewer.RenderLoop.constructor | vello/src/main.rs:27-38 | the loop starts with no content, window, surface or renderer, pointer at the origin, accumulator 0 and empty buffer |
| Viewer.RenderLoop.HandleResized | vello/src/main.rs:46-53 | the new state is `Step` of the old on `Resized`, and the invariant is kept |
| Viewer.RenderLoop.HandleMouseInput | vello/src/main.rs:54-67 | the new state is `Step` of the old on `MouseInput`: only the left button reaches the content |
| Viewer.RenderLoop.HandleCursorMoved | vello/src/main.rs:68-73 | the new state is `Step` of the old on `CursorMoved` |
| Viewer.RenderLoop.HandleMouseWheel | vello/src/main.rs:74-83 | the new state is `Step` of the old on `MouseWheel` |
| Viewer.RenderLoop.HandleDroppedFile | vello/src/main.rs:84-91 | the new state is `Step` of the old on `DroppedFile` |
| Viewer.RenderLoop.HandleRedrawRequested | vello/src/main.rs:100-185 | the new state is `Step` of the old on `RedrawRequested`, and the average returned is the one `Record` reports |
| Viewer.RenderLoop.HandleSuspended | vello/src/main.rs:186-191 | the new state is `Step` of the old on `Suspended` |
| Viewer.RenderLoop.HandleResumed | vello/src/main.rs:192-226 | the new state is `Step` of the old on `Resumed` |
| LinearAnimation.DirectionFor | include/rive/animation/linear_animation_instance.hpp:36-46 | the direction is +1 or -1, and positive exactly when the requested int is positive |
| LinearAnimation.LinearAnimationInstance.SetDirection | include/rive/animation/linear_animation_instance.hpp:32-46 | only the direction changes, to `DirectionFor(d)`; the getter then returns +1 or -1 |
| LinearAnimation.LinearAnimationInstance.ClearSpilledTime | include/rive/animation/linear_animation_instance.hpp:22 | only the spilled time changes, and `spilledTime()` then returns 0 |
| LinearAnimation.LinearAnimationInstance.LoopMode | include/rive/animation/linear_animation_instance.hpp:79-80 | `loop()` has the numeric value of `loopValue()`, so it is oneShot exactly when `loopValue()` is |
| LinearAnimation.LinearAnimationInstance.KeepGoing | include/rive/animation/linear_animation_instance.hpp:60-65 | a oneShot instance stops once it has reached the end it is heading for: forwards at or past the duration, backwards at or before 0 |
| LinearAnimation.KeepGoingUnlessOneShot | include/rive/animation/linear_animation_instance.hpp:60-62 | every loop mode but oneShot keeps going |
| LinearAnimation.OneShotKeepGoing | include/rive/animation/linear_animation_instance.hpp:60-65 | for oneShot with a direction from the setter, it keeps going if and only if (forwards and time < duration) or (backwards and time > 0) |
| LinearAnimation.OneShotWithoutDirectionStops | include/rive/animation/linear_animation_instance.hpp:62-64 | a oneShot instance whose direction is 0 never keeps going: only the direction's sign matters |

## Left out

- GPU work: `RenderContext`, `create_surface`, `resize_surface`, `Renderer::new`, `get_current_texture`, `render_to_surface_async`, `block_on_wgpu`, `present` and `device.poll` are foreign calls. They are modelled as always succeeding. The `expect`/`unwrap` panics on their failure are not modelled. A surface is its configured size, and a rendered and presented frame is an entry in `frames`.
- Windowing: `WindowBuilder`, the window's title text, `request_redraw`, `ControlFlow` and the event pump are left out. `CloseRequested` only sets `ControlFlow::Exit`, and `MainEventsCleared` only requests a redraw, so neither has a handler. A new window's inner size is the parameter of `Resumed`; it depends on `INITIAL_WINDOW_SIZE` and the display's scale factor.
- Wall-clock time: `Instant::now` and `elapsed` are replaced by the `elapsed` parameter of a redraw.
- Title text: the `{:.2}ms` formatting is left out. A title records the average in milliseconds and the optional copy count.
- `ViewerContent`: `new`, `handle_draw` and the `handle_*` methods live in a crate that is not part of this model. Content is an identifier, its calls are logged, and the loader's result is a parameter of `DroppedFile`. The dropped path is not modelled.
- f64 and f32 arithmetic: NaN, infinities, rounding and negative zero are left out. For example, `signum(-0.0) == -1` is not modelled. The saturation of the `as u32` cast at `u32::MAX` and the overflow of `factor.pow(2)` for factors of 65536 or more are left out too.
- Hidden animation logic: `advance`, `advanceAndApply`, `time(float)`, `reset`, `loopValue()` and its setter, `durationSeconds()`, `fps`, `duration`, `speed`, `startTime`, `isTranslucent`, `name` and the constructors are declared but not defined in the header. The model's constructor takes the state a real constructor would produce.
- `apply(mix)` only forwards to `LinearAnimation::apply`, which is not part of this model, and `animation()` only returns the animation pointer; neither is modelled.
- `rive::Loop`: its declaration is not part of this model. The model takes oneShot's value to be 0.
- LinearAnimation getters (`time()`, `direction()`, `totalTime()`, `lastTotalTime()`, `spilledTime()`, `didLoop()`): each is a reads-only function returning its field. Their only contracts are the setters' postconditions, which are stated through them (`Fields()`).
