/** `glow::Instance`: the plugin instance. It owns the settings and the API
    object, creates the graphics context and the renderer the first time the
    view changes, and turns mouse events into renderer calls (`SetDrawing`,
    `MoveTo`, `DrawTo`) while remembering in `drawing` whether a button is
    held. The renderer is modelled by the sequence of calls made on it. */
module GlowInstance {
  import opened CInt
  import opened GlowSettings
  import opened GlowApi

  datatype Point = Point(x: i32, y: i32)

  /** A `pp::InputEvent`: its type and, for the mouse events the instance
      reads, the position. */
  datatype InputEvent =
    | MouseDown(pos: Point)
    | MouseUp(pos: Point)
    | MouseLeave(pos: Point)
    | MouseMove(pos: Point)
    | OtherEvent  // mouse enter, wheel, keyboard and the rest

  /** A call made on the renderer. */
  datatype RendererCall = SetDrawing(on: bool) | MoveTo(p: Point) | DrawTo(p: Point)

  /** What one input event does: whether it is reported handled, the new
      `drawing` flag and the renderer calls made, in order. */
  datatype InputStep = InputStep(handled: bool, drawing: bool, calls: seq<RendererCall>)

  /** `HandleInputEvent` on an instance with or without a renderer. */
  function OnInput(hasRenderer: bool, drawing: bool, e: InputEvent): (r: InputStep)
    ensures !hasRenderer ==> r == InputStep(false, drawing, [])
    ensures r.handled <==> hasRenderer && !e.OtherEvent?
    ensures !r.handled ==> r.drawing == drawing && r.calls == []
    ensures forall p :: DrawTo(p) in r.calls <==> hasRenderer && drawing && e == MouseMove(p)
    ensures forall p :: MoveTo(p) in r.calls <==> hasRenderer && e == MouseDown(p)
    ensures SetDrawing(true) in r.calls <==> hasRenderer && e.MouseDown?
    ensures SetDrawing(false) in r.calls <==> hasRenderer && (e.MouseUp? || e.MouseLeave?)
    ensures e.MouseMove? ==> r.drawing == drawing
  {
    if !hasRenderer then InputStep(false, drawing, [])
    else
      match e
      case MouseDown(p) => InputStep(true, true, [SetDrawing(true), MoveTo(p)])
      case MouseLeave(_) => InputStep(true, false, [SetDrawing(false)])
      case MouseUp(_) => InputStep(true, false, [SetDrawing(false)])
      case MouseMove(p) => InputStep(true, drawing, if drawing then [DrawTo(p)] else [])
      case OtherEvent => InputStep(false, drawing, [])
  }

  // ---------------------------------------------------------------------------
  // Event traces
  // ---------------------------------------------------------------------------

  /** What the host delivers to the instance. */
  datatype HostEvent = Input(e: InputEvent) | ViewChanged

  datatype InputState = InputState(hasRenderer: bool, drawing: bool)

  /** The state after a sequence of host events and the renderer calls made. */
  datatype Trace = Trace(state: InputState, calls: seq<RendererCall>)

  /** One host event: a view change creates the renderer (if missing) and
      stops drawing; an input event goes through `OnInput`. */
  function Step(st: InputState, h: HostEvent): (r: Trace)
    ensures r.state.hasRenderer <==> st.hasRenderer || h.ViewChanged?
    ensures (st.drawing ==> st.hasRenderer) ==> (r.state.drawing ==> r.state.hasRenderer)
    ensures h.ViewChanged? ==> !r.state.drawing && r.calls == []
    ensures |r.calls| <= 2
  {
    match h
    case ViewChanged => Trace(InputState(true, false), [])
    case Input(e) =>
      var r := OnInput(st.hasRenderer, st.drawing, e);
      Trace(InputState(st.hasRenderer, r.drawing), r.calls)
  }

  /** A freshly constructed instance fed the events `es`, in order. */
  function Run(es: seq<HostEvent>): (r: Trace)
    ensures r.state.drawing ==> r.state.hasRenderer
    ensures |r.calls| <= 2 * |es|
  {
    if es == [] then Trace(InputState(false, false), [])
    else
      var before := Run(es[..|es| - 1]);
      var after := Step(before.state, es[|es| - 1]);
      Trace(after.state, before.calls + after.calls)
  }

  /** The events that decide `drawing`: pressing, releasing or leaving with
      the mouse, and a view change. */
  predicate Relevant(h: HostEvent)
  {
    h.ViewChanged? || h.e.MouseDown? || h.e.MouseUp? || h.e.MouseLeave?
  }

  /** The most recent relevant event of `es` is a mouse-down. */
  ghost predicate LastRelevantIsMouseDown(es: seq<HostEvent>)
  {
    exists i :: 0 <= i < |es| && es[i].Input? && es[i].e.MouseDown?
      && forall k :: i < k < |es| ==> !Relevant(es[k])
  }

  /** Delivering one more event extends the trace by one step. */
  lemma RunAppend(es: seq<HostEvent>, h: HostEvent)
    ensures Run(es + [h]).state == Step(Run(es).state, h).state
    ensures Run(es + [h]).calls == Run(es).calls + Step(Run(es).state, h).calls
  {
    assert (es + [h])[..|es|] == es;
  }

  /** A relevant event decides the question on its own. */
  lemma LastRelevantAfterRelevant(es: seq<HostEvent>, h: HostEvent)
    requires Relevant(h)
    ensures LastRelevantIsMouseDown(es + [h]) <==> h.Input? && h.e.MouseDown?
  {
    var all := es + [h];
    var n := |es|;
    if h.Input? && h.e.MouseDown? {
      assert all[n] == h;
      assert forall k :: n < k < |all| ==> !Relevant(all[k]);
    } else {
      assert all[n] == h;
      forall i | 0 <= i < |all| && all[i].Input? && all[i].e.MouseDown?
        ensures exists k :: i < k < |all| && Relevant(all[k])
      {
        assert i < n && Relevant(all[n]);
      }
    }
  }

  /** An event that is not relevant leaves the question where it was. */
  lemma LastRelevantAfterIrrelevant(es: seq<HostEvent>, h: HostEvent)
    requires !Relevant(h)
    ensures LastRelevantIsMouseDown(es + [h]) <==> LastRelevantIsMouseDown(es)
  {
    var all := es + [h];
    if LastRelevantIsMouseDown(es) {
      var i :| 0 <= i < |es| && es[i].Input? && es[i].e.MouseDown?
        && forall k :: i < k < |es| ==> !Relevant(es[k]);
      assert all[i] == es[i];
      assert forall k :: i < k < |all| ==> !Relevant(all[k]) by {
        forall k | i < k < |all| ensures !Relevant(all[k]) {
          if k < |es| { assert all[k] == es[k]; } else { assert all[k] == h; }
        }
      }
    }
    if LastRelevantIsMouseDown(all) {
      var i :| 0 <= i < |all| && all[i].Input? && all[i].e.MouseDown?
        && forall k :: i < k < |all| ==> !Relevant(all[k]);
      assert all[|es|] == h;
      assert es[i] == all[i];
      assert forall k :: i < k < |es| ==> !Relevant(es[k]) by {
        forall k | i < k < |es| ensures !Relevant(es[k]) {
          assert es[k] == all[k];
        }
      }
    }
  }

  /** After any sequence of events, the instance has a renderer iff the view
      has changed at least once. */
  lemma {:induction false} RendererFollowsViewChange(es: seq<HostEvent>)
    ensures Run(es).state.hasRenderer <==> ViewChanged in es
  {
    if es != [] {
      var pre, h := es[..|es| - 1], es[|es| - 1];
      assert es == pre + [h];
      RendererFollowsViewChange(pre);
      RunAppend(pre, h);
    }
  }

  /** After any sequence of events, the instance is drawing iff it has a
      renderer and the most recent relevant event was a mouse-down. */
  lemma {:induction false} DrawingFollowsLastRelevant(es: seq<HostEvent>)
    ensures Run(es).state.drawing <==> ViewChanged in es && LastRelevantIsMouseDown(es)
  {
    if es != [] {
      var pre, h := es[..|es| - 1], es[|es| - 1];
      assert es == pre + [h];
      DrawingFollowsLastRelevant(pre);
      RendererFollowsViewChange(pre);
      RunAppend(pre, h);
      assert (ViewChanged in es) <==> (ViewChanged in pre || h == ViewChanged);
      if Relevant(h) {
        LastRelevantAfterRelevant(pre, h);
      } else {
        LastRelevantAfterIrrelevant(pre, h);
      }
    }
  }

  /** A `DrawTo` is issued only for a mouse move, and only when the most
      recent relevant event before it was a mouse-down. */
  lemma DrawToOnlyAfterMouseDown(es: seq<HostEvent>, e: InputEvent, p: Point)
    requires DrawTo(p) in Step(Run(es).state, Input(e)).calls
    ensures e == MouseMove(p) && LastRelevantIsMouseDown(es)
  {
    DrawingFollowsLastRelevant(es);
  }

  /** Once the renderer exists, a mouse-down starts a stroke: drawing is on,
      and the renderer is told to put its pen down, then moved to the point. */
  lemma MouseDownStartsStroke(es: seq<HostEvent>, p: Point)
    requires ViewChanged in es
    ensures var t := Step(Run(es).state, Input(MouseDown(p)));
      t.state.drawing && t.calls == [SetDrawing(true), MoveTo(p)]
  {
    RendererFollowsViewChange(es);
  }

  /** Once the renderer exists, mouse-up and mouse-leave end the stroke:
      drawing is off and the renderer is told to lift its pen. */
  lemma MouseReleaseEndsStroke(es: seq<HostEvent>, e: InputEvent)
    requires ViewChanged in es && (e.MouseUp? || e.MouseLeave?)
    ensures var t := Step(Run(es).state, Input(e));
      !t.state.drawing && t.calls == [SetDrawing(false)]
  {
    RendererFollowsViewChange(es);
  }

  /** The converse of `DrawToOnlyAfterMouseDown`: once the view has changed
      and the most recent relevant event was a mouse-down, a mouse move draws
      to its position and keeps drawing. */
  lemma MoveDrawsAfterMouseDown(es: seq<HostEvent>, p: Point)
    requires ViewChanged in es && LastRelevantIsMouseDown(es)
    ensures Step(Run(es).state, Input(MouseMove(p))) == Trace(Run(es).state, [DrawTo(p)])
  {
    DrawingFollowsLastRelevant(es);
    RendererFollowsViewChange(es);
  }

  /** The pen state the renderer was last told: the argument of the most
      recent `SetDrawing` call, and up before the first. */
  function RendererPenDown(calls: seq<RendererCall>): bool
  {
    if calls == [] then false
    else if calls[|calls| - 1].SetDrawing? then calls[|calls| - 1].on
    else RendererPenDown(calls[..|calls| - 1])
  }

  lemma PenDownAppend(calls: seq<RendererCall>, c: RendererCall)
    ensures RendererPenDown(calls + [c]) == if c.SetDrawing? then c.on else RendererPenDown(calls)
  {
    assert (calls + [c])[..|calls|] == calls;
  }

  /** Whenever the instance is drawing, the renderer's pen is down. */
  lemma {:induction false} PenDownWhileDrawing(es: seq<HostEvent>)
    ensures Run(es).state.drawing ==> RendererPenDown(Run(es).calls)
  {
    if es != [] {
      var pre, h := es[..|es| - 1], es[|es| - 1];
      assert es == pre + [h];
      PenDownWhileDrawing(pre);
      RunAppend(pre, h);
      var before := Run(pre).calls;
      var added := Step(Run(pre).state, h).calls;
      if |added| == 2 {
        var p := h.e.pos;
        assert added == [SetDrawing(true), MoveTo(p)];
        PenDownAppend(before, SetDrawing(true));
        assert before + added == (before + [SetDrawing(true)]) + [MoveTo(p)];
        PenDownAppend(before + [SetDrawing(true)], MoveTo(p));
      } else if |added| == 1 {
        PenDownAppend(before, added[0]);
      } else {
        assert before + added == before;
      }
    }
  }

  /** Every `DrawTo` the renderer receives arrives while its pen is down. */
  lemma {:induction false} DrawToWhilePenDown(es: seq<HostEvent>)
    ensures forall j | 0 <= j < |Run(es).calls| && Run(es).calls[j].DrawTo? ::
      RendererPenDown(Run(es).calls[..j])
  {
    if es != [] {
      var pre, h := es[..|es| - 1], es[|es| - 1];
      assert es == pre + [h];
      DrawToWhilePenDown(pre);
      PenDownWhileDrawing(pre);
      RunAppend(pre, h);
      var before := Run(pre).calls;
      var added := Step(Run(pre).state, h).calls;
      var all := Run(es).calls;
      assert all == before + added;
      forall j | 0 <= j < |all| && all[j].DrawTo?
        ensures RendererPenDown(all[..j])
      {
        if j < |before| {
          assert all[..j] == before[..j];
          assert before[j] == all[j];
        } else {
          assert added == [DrawTo(h.e.pos)];
          assert all[..j] == before;
        }
      }
    }
  }

  /** The converse fails: a view change in the middle of a stroke clears
      `drawing` without telling the renderer, whose pen stays down. */
  lemma ViewChangeLeavesPenDown()
    ensures var es := [ViewChanged, Input(MouseDown(Point(0, 0))), ViewChanged];
      !Run(es).state.drawing && RendererPenDown(Run(es).calls)
  {
    var es := [ViewChanged, Input(MouseDown(Point(0, 0))), ViewChanged];
    assert es[..2] == [ViewChanged, Input(MouseDown(Point(0, 0)))];
    assert es[..2][..1] == [ViewChanged];
    assert [ViewChanged][..0] == [];
    assert Run(es).calls == [SetDrawing(true), MoveTo(Point(0, 0))];
    PenDownAppend([SetDrawing(true)], MoveTo(Point(0, 0)));
    PenDownAppend([], SetDrawing(true));
  }

  // ---------------------------------------------------------------------------
  // The instance object
  // ---------------------------------------------------------------------------

  class Instance {
    /** `graphics != NULL` */
    var hasGraphics: bool
    /** `renderer != NULL`; the renderer is started as soon as it is created. */
    var hasRenderer: bool
    var drawing: bool
    /** The calls made on the renderer, oldest first. */
    var calls: seq<RendererCall>
    const settings: Settings
    const api: Api
    /** The host events delivered so far. */
    ghost var events: seq<HostEvent>

    ghost predicate Valid()
      reads this, api
    {
      && hasRenderer == hasGraphics
      && api.settings == settings
      && Run(events) == Trace(InputState(hasRenderer, drawing), calls)
    }

    /** No graphics, no renderer, not drawing, default settings. */
    constructor ()
      ensures Valid() && events == []
      ensures !hasGraphics && !hasRenderer && !drawing && calls == []
      ensures fresh(settings) && fresh(api) && api.posted == []
      ensures settings.Value() == SettingsValue(0.95, 0.02, 1, 20, 3)
    {
      hasGraphics := false;
      hasRenderer := false;
      drawing := false;
      calls := [];
      events := [];
      var s := new Settings();
      settings := s;
      api := new Api(s);
    }

    /** `DidChangeView`: the graphics context and the renderer are created on
        the first call only; every call resets `drawing`. */
    method DidChangeView()
      requires Valid()
      modifies this
      ensures Valid() && events == old(events) + [ViewChanged]
      ensures hasGraphics && hasRenderer && !drawing && calls == old(calls)
    {
      if !hasGraphics {
        hasGraphics := true;
        hasRenderer := true;
      }
      drawing := false;
      events := events + [ViewChanged];
      assert events[..|events| - 1] == old(events);
    }

    /** `HandleInputEvent`: without a renderer nothing happens and the event is
        not handled; otherwise mouse-down starts drawing and moves the pen,
        mouse-up and mouse-leave stop drawing, mouse-move draws while drawing,
        and any other event is not handled. */
    method HandleInputEvent(e: InputEvent) returns (handled: bool)
      requires Valid()
      modifies this
      ensures Valid() && events == old(events) + [Input(e)]
      ensures hasGraphics == old(hasGraphics) && hasRenderer == old(hasRenderer)
      ensures var r := OnInput(old(hasRenderer), old(drawing), e);
        handled == r.handled && drawing == r.drawing && calls == old(calls) + r.calls
    {
      ghost var r := OnInput(hasRenderer, drawing, e);
      RunAppend(events, Input(e));
      assert Run(events + [Input(e)]) == Trace(InputState(hasRenderer, r.drawing), calls + r.calls);
      events := events + [Input(e)];
      if !hasRenderer {
        return false;
      }
      match e {
        case MouseDown(p) =>
          assert r == InputStep(true, true, [SetDrawing(true), MoveTo(p)]);
          drawing := true;
          calls := calls + [SetDrawing(true)];
          calls := calls + [MoveTo(p)];
          return true;
        case MouseLeave(_) =>
          assert r == InputStep(true, false, [SetDrawing(false)]);
          drawing := false;
          calls := calls + [SetDrawing(false)];
          return true;
        case MouseUp(_) =>
          assert r == InputStep(true, false, [SetDrawing(false)]);
          drawing := false;
          calls := calls + [SetDrawing(false)];
          return true;
        case MouseMove(p) =>
          assert r == InputStep(true, drawing, if drawing then [DrawTo(p)] else []);
          if drawing {
            calls := calls + [DrawTo(p)];
          }
          return true;
        case OtherEvent =>
      }
      return false;
    }

    /** `HandleMessage`: delegated to the API object. */
    method HandleMessage(message: Var)
      requires Valid()
      modifies api, settings
      ensures Valid()
      ensures var r := Respond(message, old(settings.Value()));
        settings.Value() == r.settings
        && api.posted == old(api.posted) + (if r.reply.Some? then [r.reply.value] else [])
    {
      api.HandleMessage(message);
    }
  }
}
