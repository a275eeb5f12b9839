/**
 * The viewer's event loop (vello/src/main.rs:26-229): one closure that
 * handles every platform event by updating the variables it captured. The
 * variables become the fields of `RenderLoop`, each event kind one of its
 * methods; `Step` states on values what each event does to them, and the
 * lemmas about `Step` carry the loop's invariants across any run of events.
 *
 * The content object, the GPU layer and the window are outside the model:
 * content is an identifier plus a log of the calls made on it, the GPU
 * surface is its present size plus a log of submitted frames, a window is an
 * identifier, and what the platform reports (sizes, the content loader's
 * verdict, elapsed time) arrives as event parameters.
 */
module Viewer {
  import opened Wrappers
  import opened Scroll
  import opened Mosaic
  import opened FrameStats

  type WindowId = nat
  type ContentId = nat

  /** kurbo's Vec2: the stored pointer position. */
  datatype Vec2 = Vec2(x: real, y: real)

  datatype ElementState = Pressed | Released
  datatype MouseButton = Left | Right | Middle | Other(code: nat)

  /** `RenderState`: the window and its surface, with the surface's configured size. */
  datatype RenderState = RenderState(window: WindowId, width: nat, height: nat)

  /** The calls the loop makes on the content object. */
  datatype ContentCall =
    | Resize(target: ContentId, width: nat, height: nat)
    | PointerDown(target: ContentId, position: Vec2)
    | PointerUp(target: ContentId, position: Vec2)
    | PointerMove(target: ContentId, position: Vec2)
    | Draw(target: ContentId, elapsed: real)

  /** One scene rendered to a surface and presented. */
  datatype Frame = Frame(window: WindowId, width: nat, height: nat, scene: seq<SceneOp>)

  /** The platform events the closure handles. */
  datatype Event =
    | Resized(width: nat, height: nat)
    | MouseInput(state: ElementState, button: MouseButton)
    | CursorMoved(position: Vec2)
    | MouseWheel(delta: ScrollDelta)
      /** `loaded` is what `ViewerContent::new` returned; the size is the window's inner size. */
    | DroppedFile(loaded: Option<ContentId>, innerWidth: nat, innerHeight: nat)
      /**
       * `elapsed` is the time since `frame_start_time` was last reset: by the
       * previous redraw after its bookkeeping and before its drawing, or, for
       * the first redraw, when `main` set up the loop.
       */
    | RedrawRequested(elapsed: real)
    | Suspended
      /** `newWindow` is used only when no window is cached; the size is the window's inner size. */
    | Resumed(newWindow: WindowId, innerWidth: nat, innerHeight: nat)

  /** The events that arrive as `Event::WindowEvent`. */
  predicate IsWindowEvent(e: Event) {
    e.Resized? || e.MouseInput? || e.CursorMoved? || e.MouseWheel? || e.DroppedFile?
  }

  /** The captured variables, together with the calls made outside so far. */
  datatype LoopState = LoopState(
    content: Option<ContentId>,
    cachedWindow: Option<WindowId>,
    rendererSet: bool,
    renderState: Option<RenderState>,
    mousePos: Vec2,
    scrollDelta: real,
    stats: seq<real>,
    contentCalls: seq<ContentCall>,
    titles: seq<FrameStats.Title>,
    frames: seq<Frame>)

  /** The state before the first event. */
  function Initial(): LoopState {
    LoopState(None, None, false, None, Vec2(0.0, 0.0), 0.0, [], [], [], [])
  }

  /**
   * What the loop keeps true between events: the accumulator is never
   * negative, the stats buffer is never full, the window is never both in use
   * and cached, and a renderer exists whenever a surface does.
   */
  predicate Inv(s: LoopState) {
    s.scrollDelta >= 0.0 &&
    |s.stats| < Capacity &&
    !(s.renderState.Some? && s.cachedWindow.Some?) &&
    (s.renderState.Some? ==> s.rendererSet)
  }

  /**
   * The effect of one redraw (vello/src/main.rs:100-185): it touches no
   * captured variable but the stats buffer, and only appends to the logs.
   */
  function Redraw(s: LoopState, elapsed: real): (r: LoopState)
    ensures r.content == s.content && r.cachedWindow == s.cachedWindow &&
            r.rendererSet == s.rendererSet && r.renderState == s.renderState &&
            r.mousePos == s.mousePos && r.scrollDelta == s.scrollDelta
    ensures s.contentCalls <= r.contentCalls && s.titles <= r.titles && s.frames <= r.frames
  {
    var f := Factor(s.scrollDelta);
    var (buffer, average) := Record(s.stats, elapsed);
    var titles :=
      if average.Some? && s.renderState.Some? then s.titles + [TitleFor(average.value, f)]
      else s.titles;
    var s1 := s.(stats := buffer, titles := titles);
    match s.renderState
    case None => s1
    case Some(rs) =>
      s1.(contentCalls := if s.content.Some? then s.contentCalls + [Draw(s.content.value, elapsed)]
                          else s.contentCalls,
          frames := s.frames + [Frame(rs.window, rs.width, rs.height,
                                      FrameScene(s.content.Some?, f, rs.width, rs.height))])
  }

  /**
   * The effect of one event on the loop's state. The logs of calls made
   * outside only grow; only a redraw touches the stats buffer, the titles and
   * the frames, only a wheel event the accumulator, and only a dropped file
   * the content.
   */
  function Step(s: LoopState, e: Event): (r: LoopState)
    ensures s.contentCalls <= r.contentCalls && s.titles <= r.titles && s.frames <= r.frames
    ensures !e.RedrawRequested? ==> r.stats == s.stats && r.titles == s.titles && r.frames == s.frames
    ensures !e.MouseWheel? ==> r.scrollDelta == s.scrollDelta
    ensures !e.DroppedFile? ==> r.content == s.content
    ensures !e.CursorMoved? ==> r.mousePos == s.mousePos
    ensures !e.Suspended? && !e.Resumed? ==>
      r.cachedWindow == s.cachedWindow && (r.renderState.Some? <==> s.renderState.Some?) &&
      (s.renderState.Some? ==> r.renderState.value.window == s.renderState.value.window)
  {
    if IsWindowEvent(e) && s.renderState.None? then s
    else
      match e
      case Resized(width, height) =>
        s.(contentCalls := if s.content.Some? then s.contentCalls + [Resize(s.content.value, width, height)]
                           else s.contentCalls,
           renderState := Some(s.renderState.value.(width := width, height := height)))
      case MouseInput(state, button) =>
        if button != Left || s.content.None? then s
        else
          var call := if state == Pressed then PointerDown(s.content.value, s.mousePos)
                      else PointerUp(s.content.value, s.mousePos);
          s.(contentCalls := s.contentCalls + [call])
      case CursorMoved(position) =>
        s.(mousePos := position,
           contentCalls := if s.content.Some? then s.contentCalls + [PointerMove(s.content.value, position)]
                           else s.contentCalls)
      case MouseWheel(delta) =>
        s.(scrollDelta := Apply(s.scrollDelta, delta))
      case DroppedFile(loaded, innerWidth, innerHeight) =>
        s.(content := loaded,
           contentCalls := if loaded.Some? then s.contentCalls + [Resize(loaded.value, innerWidth, innerHeight)]
                           else s.contentCalls)
      case RedrawRequested(elapsed) =>
        Redraw(s, elapsed)
      case Suspended =>
        if s.renderState.None? then s
        else s.(renderState := None, cachedWindow := Some(s.renderState.value.window))
      case Resumed(newWindow, innerWidth, innerHeight) =>
        if s.renderState.Some? then s
        else
          var window := if s.cachedWindow.Some? then s.cachedWindow.value else newWindow;
          s.(cachedWindow := None,
             renderState := Some(RenderState(window, innerWidth, innerHeight)),
             rendererSet := true)
  }

  /** The state after a run of events. */
  function Run(s: LoopState, events: seq<Event>): LoopState
    decreases |events|
  {
    if events == [] then s else Run(Step(s, events[0]), events[1..])
  }

  lemma InitialInv()
    ensures Inv(Initial())
  {
  }

  /** Every event keeps the invariant. */
  lemma StepInv(s: LoopState, e: Event)
    requires Inv(s)
    ensures Inv(Step(s, e))
  {
  }

  /** The invariant holds after any run of events from any state that has it. */
  lemma {:induction false} RunInv(s: LoopState, events: seq<Event>)
    requires Inv(s)
    ensures Inv(Run(s, events))
    decreases |events|
  {
    if events != [] {
      StepInv(s, events[0]);
      RunInv(Step(s, events[0]), events[1..]);
    }
  }

  /** Window events change nothing while the loop has no surface. */
  lemma WindowEventsIgnoredWhileSuspended(s: LoopState, e: Event)
    requires s.renderState.None? && IsWindowEvent(e)
    ensures Step(s, e) == s
  {
  }

  /** Once a renderer has been built it is never dropped, whatever events follow. */
  lemma {:induction false} RendererStaysSet(s: LoopState, events: seq<Event>)
    requires s.rendererSet
    ensures Run(s, events).rendererSet
    decreases |events|
  {
    if events != [] {
      RendererStaysSet(Step(s, events[0]), events[1..]);
    }
  }

  /**
   * Suspending hands the window to the cache and leaves no surface; resuming
   * takes it back out, sized to the window's size at that resume, and a
   * second resume changes nothing.
   */
  lemma SuspendResumeReusesWindow(s: LoopState, w1: WindowId, a1: nat, b1: nat,
                                  w2: WindowId, a2: nat, b2: nat)
    requires Inv(s) && s.renderState.None?
    ensures var s1 := Step(s, Resumed(w1, a1, b1));
      var window := if s.cachedWindow.Some? then s.cachedWindow.value else w1;
      s1.renderState == Some(RenderState(window, a1, b1)) && s1.cachedWindow.None? && s1.rendererSet &&
      var s2 := Step(s1, Suspended);
      s2.renderState.None? && s2.cachedWindow == Some(window) &&
      var s3 := Step(s2, Resumed(w2, a2, b2));
      s3.renderState == Some(RenderState(window, a2, b2)) && s3.cachedWindow.None? &&
      Step(s3, Resumed(w2, a2, b2)) == s3
  {
  }

  /** A resume while a surface exists changes nothing, whatever its arguments. */
  lemma ResumeWhileActiveIsNoOp(s: LoopState, newWindow: WindowId, innerWidth: nat, innerHeight: nat)
    requires s.renderState.Some?
    ensures Step(s, Resumed(newWindow, innerWidth, innerHeight)) == s
  {
  }

  /**
   * A suspend drops the surface and caches its window, and changes nothing
   * else; with no surface it changes nothing at all.
   */
  lemma SuspendCachesWindow(s: LoopState)
    ensures s.renderState.Some? ==>
      Step(s, Suspended) == s.(renderState := None, cachedWindow := Some(s.renderState.value.window))
    ensures s.renderState.None? ==> Step(s, Suspended) == s
  {
  }

  /** A resize keeps the same window and surface and only updates the configured size. */
  lemma ResizeKeepsSurface(s: LoopState, width: nat, height: nat)
    requires s.renderState.Some?
    ensures Step(s, Resized(width, height)).renderState ==
      Some(RenderState(s.renderState.value.window, width, height))
  {
  }

  /**
   * The press and release handlers get the position stored by the last
   * cursor move; a button event carries none.
   */
  lemma PressUsesLastCursorPosition(s: LoopState, position: Vec2, state: ElementState)
    requires s.renderState.Some? && s.content.Some?
    ensures var s2 := Step(Step(s, CursorMoved(position)), MouseInput(state, Left));
      s2.mousePos == position &&
      s2.contentCalls == s.contentCalls +
        [PointerMove(s.content.value, position),
         if state == Pressed then PointerDown(s.content.value, position)
         else PointerUp(s.content.value, position)]
  {
  }

  /**
   * In every state with a surface, a left press or release reports the
   * stored position to the content, if there is any; any other button, and
   * any button without content, changes nothing.
   */
  lemma MouseInputReportsStoredPosition(s: LoopState, state: ElementState, button: MouseButton)
    requires s.renderState.Some?
    ensures button == Left && s.content.Some? ==>
      Step(s, MouseInput(state, button)).contentCalls == s.contentCalls +
        [if state == Pressed then PointerDown(s.content.value, s.mousePos)
         else PointerUp(s.content.value, s.mousePos)]
    ensures button != Left || s.content.None? ==> Step(s, MouseInput(state, button)) == s
  {
  }

  /** Whether a run of events holds no cursor move. */
  predicate NoCursorMove(events: seq<Event>) {
    forall i :: 0 <= i < |events| ==> !events[i].CursorMoved?
  }

  /**
   * The stored position is the one of the most recent cursor move that
   * arrived while a surface existed: any run of events without a cursor
   * move, however long and whatever it holds, leaves it alone.
   */
  lemma {:induction false} StoredPositionIsLastCursorMove(s: LoopState, position: Vec2, events: seq<Event>)
    requires s.renderState.Some? && NoCursorMove(events)
    ensures Run(Step(s, CursorMoved(position)), events).mousePos == position
    decreases |events|
  {
    KeepsPosition(Step(s, CursorMoved(position)), events);
  }

  /** Helper: a run without cursor moves keeps the stored position. */
  lemma {:induction false} KeepsPosition(s: LoopState, events: seq<Event>)
    requires NoCursorMove(events)
    ensures Run(s, events).mousePos == s.mousePos
    decreases |events|
  {
    if events != [] {
      assert !events[0].CursorMoved?;
      assert NoCursorMove(events[1..]) by {
        forall i | 0 <= i < |events[1..]| ensures !events[1..][i].CursorMoved? {
          assert events[1..][i] == events[i + 1];
        }
      }
      KeepsPosition(Step(s, events[0]), events[1..]);
    }
  }

  /** Cursor moves are stored even when there is no content to tell. */
  lemma CursorStoredWithoutContent(s: LoopState, position: Vec2)
    requires s.renderState.Some? && s.content.None?
    ensures Step(s, CursorMoved(position)).mousePos == position
    ensures Step(s, CursorMoved(position)).contentCalls == s.contentCalls
  {
  }

  /**
   * A dropped file replaces the content wholesale; a successful load is
   * sized to the window at once, a failed one leaves no content.
   */
  lemma DroppedFileReplacesContent(s: LoopState, loaded: Option<ContentId>, width: nat, height: nat)
    requires s.renderState.Some?
    ensures var s1 := Step(s, DroppedFile(loaded, width, height));
      s1.content == loaded &&
      (loaded.Some? ==> s1.contentCalls == s.contentCalls + [Resize(loaded.value, width, height)]) &&
      (loaded.None? ==> s1.contentCalls == s.contentCalls)
  {
  }

  /**
   * Every redraw records exactly one duration, also while suspended; the
   * title changes only on a redraw that drains the buffer while a surface
   * exists, and it then names factor squared copies exactly when the factor
   * exceeds one.
   */
  lemma RedrawRecordsOneDuration(s: LoopState, elapsed: real)
    requires Inv(s)
    ensures var s1 := Step(s, RedrawRequested(elapsed));
      (|s.stats| + 1 < Capacity ==> s1.stats == s.stats + [elapsed] && s1.titles == s.titles) &&
      (|s.stats| + 1 == Capacity ==>
        (s1.stats == [] &&
         s1.titles == if s.renderState.Some?
                      then s.titles + [TitleFor(Mean(s.stats + [elapsed]), Factor(s.scrollDelta))]
                      else s.titles))
  {
  }

  /**
   * With a surface, a redraw submits exactly one frame: factor squared
   * copies of the content when there is content, the invisible placeholder
   * otherwise; with no surface nothing is drawn or submitted.
   */
  lemma RedrawSubmitsOneFrame(s: LoopState, elapsed: real)
    ensures var s1 := Step(s, RedrawRequested(elapsed));
      var f := Factor(s.scrollDelta);
      (s.renderState.None? ==> s1.frames == s.frames && s1.contentCalls == s.contentCalls) &&
      (s.renderState.Some? ==>
        var rs := s.renderState.value;
        |s1.frames| == |s.frames| + 1 && s1.frames[..|s.frames|] == s.frames &&
        var frame := s1.frames[|s.frames|];
        frame.window == rs.window && frame.width == rs.width && frame.height == rs.height &&
        frame.scene == FrameScene(s.content.Some?, f, rs.width, rs.height) &&
        (s.content.Some? ==>
          frame.scene == MosaicScene(f, rs.width, rs.height) && |frame.scene| == f * f &&
          s1.contentCalls == s.contentCalls + [Draw(s.content.value, elapsed)]) &&
        (s.content.None? ==> frame.scene == [Placeholder] && s1.contentCalls == s.contentCalls))
  {
    var s1 := Step(s, RedrawRequested(elapsed));
    assert s1 == Redraw(s, elapsed);
    if s.renderState.Some? {
      var rs := s.renderState.value;
      var f := Factor(s.scrollDelta);
      var scene := FrameScene(s.content.Some?, f, rs.width, rs.height);
      assert s1.frames == s.frames + [Frame(rs.window, rs.width, rs.height, scene)];
      assert s1.frames[..|s.frames|] == s.frames;
      assert s1.frames[|s.frames|] == Frame(rs.window, rs.width, rs.height, scene);
      FrameSceneShape(s.content.Some?, f, rs.width, rs.height);
      if s.content.Some? {
        assert scene == MosaicScene(f, rs.width, rs.height);
        assert s1.contentCalls == s.contentCalls + [Draw(s.content.value, elapsed)];
      } else {
        assert s1.contentCalls == s.contentCalls;
      }
    } else {
      assert s1.frames == s.frames && s1.contentCalls == s.contentCalls;
    }
  }

  /**
   * The title the draining redraw sets reports f² copies whenever f > 1,
   * with or without content: with content that is the number of copies in
   * the frame it draws, without content that frame holds only the
   * placeholder.
   */
  lemma TitleCountsCopies(s: LoopState, elapsed: real)
    requires s.renderState.Some? && |s.stats| + 1 == Capacity
    ensures var s1 := Step(s, RedrawRequested(elapsed));
      var f := Factor(s.scrollDelta);
      var frame := s1.frames[|s.frames|];
      |s1.titles| == |s.titles| + 1 &&
      s1.titles[|s.titles|] == TitleFor(Mean(s.stats + [elapsed]), f) &&
      s1.titles[|s.titles|].copies == (if f > 1 then Some(f * f) else None) &&
      (s.content.Some? ==> |frame.scene| == f * f) &&
      (s.content.None? ==> |frame.scene| == 1)
  {
    var s1 := Step(s, RedrawRequested(elapsed));
    assert s1 == Redraw(s, elapsed);
    RedrawSubmitsOneFrame(s, elapsed);
  }

  /** The render loop: the closure's captured variables and its event handlers. */
  class RenderLoop {
    var content: Option<ContentId>
    var cachedWindow: Option<WindowId>
    var rendererSet: bool
    var renderState: Option<RenderState>
    var mousePos: Vec2
    var scrollDelta: real
    var stats: seq<real>
    var contentCalls: seq<ContentCall>
    var titles: seq<FrameStats.Title>
    var frames: seq<Frame>

    function Snapshot(): LoopState
      reads this
    {
      LoopState(content, cachedWindow, rendererSet, renderState, mousePos, scrollDelta,
                stats, contentCalls, titles, frames)
    }

    predicate Valid()
      reads this
    {
      Inv(Snapshot())
    }

    /** The variables as `main` initialises them before the loop starts (vello/src/main.rs:27-38). */
    constructor ()
      ensures Snapshot() == Initial() && Valid()
    {
      content, cachedWindow, rendererSet, renderState := None, None, false, None;
      mousePos, scrollDelta, stats := Vec2(0.0, 0.0), 0.0, [];
      contentCalls, titles, frames := [], [], [];
    }

    method HandleResized(width: nat, height: nat)
      requires Valid()
      modifies this
      ensures Valid() && Snapshot() == Step(old(Snapshot()), Resized(width, height))
    {
      if renderState.None? {
        return;
      }
      if content.Some? {
        contentCalls := contentCalls + [Resize(content.value, width, height)];
      }
      renderState := Some(renderState.value.(width := width, height := height));
    }

    method HandleMouseInput(state: ElementState, button: MouseButton)
      requires Valid()
      modifies this
      ensures Valid() && Snapshot() == Step(old(Snapshot()), MouseInput(state, button))
    {
      if renderState.None? {
        return;
      }
      if button == Left && content.Some? {
        var call := match state
          case Pressed => PointerDown(content.value, mousePos)
          case Released => PointerUp(content.value, mousePos);
        contentCalls := contentCalls + [call];
      }
    }

    method HandleCursorMoved(position: Vec2)
      requires Valid()
      modifies this
      ensures Valid() && Snapshot() == Step(old(Snapshot()), CursorMoved(position))
    {
      if renderState.None? {
        return;
      }
      mousePos := position;
      if content.Some? {
        contentCalls := contentCalls + [PointerMove(content.value, mousePos)];
      }
    }

    method HandleMouseWheel(delta: ScrollDelta)
      requires Valid()
      modifies this
      ensures Valid() && Snapshot() == Step(old(Snapshot()), MouseWheel(delta))
    {
      if renderState.None? {
        return;
      }
      match delta
      case LineDelta(_, lines) =>
        scrollDelta := Max(scrollDelta - Signum(lines) * Threshold, 0.0);
      case PixelDelta(_, y) =>
        scrollDelta := Max(scrollDelta - y, 0.0);
    }

    method HandleDroppedFile(loaded: Option<ContentId>, innerWidth: nat, innerHeight: nat)
      requires Valid()
      modifies this
      ensures Valid() && Snapshot() == Step(old(Snapshot()), DroppedFile(loaded, innerWidth, innerHeight))
    {
      if renderState.None? {
        return;
      }
      content := loaded;
      if content.Some? {
        contentCalls := contentCalls + [Resize(content.value, innerWidth, innerHeight)];
      }
    }

    /** Returns the average the redraw computed, if it drained the stats buffer. */
    method HandleRedrawRequested(elapsed: real) returns (average: Option<real>)
      requires Valid()
      modifies this
      ensures Valid() && Snapshot() == Step(old(Snapshot()), RedrawRequested(elapsed))
      ensures average == Record(old(stats), elapsed).1
    {
      var factor := Factor(scrollDelta);
      stats := stats + [elapsed];
      average := None;
      if |stats| == Capacity {
        average := Some(Sum(stats) / Capacity as real);
        stats := [];
        if renderState.Some? {
          titles := titles + [TitleFor(average.value, factor)];
        }
      }
      if renderState.None? {
        return;
      }
      var width, height := renderState.value.width, renderState.value.height;
      var scene: seq<SceneOp>;
      if content.Some? {
        contentCalls := contentCalls + [Draw(content.value, elapsed)];
        scene := ComposeMosaic(factor, width, height);
      } else {
        scene := [Placeholder];
      }
      // `renderer.as_mut().unwrap()`: the invariant rules out the panic.
      assert rendererSet;
      frames := frames + [Frame(renderState.value.window, width, height, scene)];
    }

    method HandleSuspended()
      requires Valid()
      modifies this
      ensures Valid() && Snapshot() == Step(old(Snapshot()), Suspended)
    {
      if renderState.Some? {
        cachedWindow := Some(renderState.value.window);
        renderState := None;
      }
    }

    method HandleResumed(newWindow: WindowId, innerWidth: nat, innerHeight: nat)
      requires Valid()
      modifies this
      ensures Valid() && Snapshot() == Step(old(Snapshot()), Resumed(newWindow, innerWidth, innerHeight))
    {
      if renderState.Some? {
        return;
      }
      var window := if cachedWindow.Some? then cachedWindow.value else newWindow;
      cachedWindow := None;
      rendererSet := true;
      renderState := Some(RenderState(window, innerWidth, innerHeight));
    }
  }
}
