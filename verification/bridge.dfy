/** Properties that span both ends of the relay: what the renderer makes
    of the bridge's messages, and what the bridge makes of the renderer's
    input events. */
module Bridge {
  import opened Wrappers
  import opened Bytes
  import opened Json
  import opened Proto
  import Utf8
  import Frame
  import Input
  import Adapter
  import Relay
  import Renderer

  /** The renderer reads back exactly the width, height and pixels the
      bridge framed. */
  lemma VideoRoundTrip(w: u32, h: u32, pixels: seq<byte>)
    ensures Renderer.DecodeMessage(Frame.VideoMessage(w, h, pixels)) == Renderer.VideoFrame(w, h, pixels)
  {
    var m := Frame.VideoMessage(w, h, pixels);
    assert m == [Frame.VIDEO_TAG] + LE32(w) + (LE32(h) + pixels);
    ReadLE32OfLE32(w, [Frame.VIDEO_TAG], LE32(h) + pixels);
    assert m == [Frame.VIDEO_TAG] + LE32(w) + LE32(h) + pixels;
    ReadLE32OfLE32(h, [Frame.VIDEO_TAG] + LE32(w), pixels);
  }

  /** The renderer reads back the text of a control message, except that a
      leading U+FEFF is lost: `TextDecoder` takes its encoding for a
      byte-order mark. */
  lemma ControlRoundTrip(text: string)
    ensures Renderer.DecodeMessage(Frame.ControlMessage(text))
         == Renderer.ControlText(if text != [] && text[0] == '\U{FEFF}' then text[1..] else text)
  {
    Utf8.TextDecodeEncode(text);
  }

  /** The JSON text `serde_json::to_string` writes for an object starts
      with `{`, so it reaches the renderer unchanged. */
  lemma ObjectTextRoundTrip(text: string)
    requires text != [] && text[0] == '{'
    ensures Renderer.DecodeMessage(Frame.ControlMessage(text)) == Renderer.ControlText(text)
  {
    ControlRoundTrip(text);
  }

  /** A frame from `on_rgba` is drawn, showing the swapped pixels, exactly
      when its dimensions are non-zero and fit a `long` and the buffer holds
      `w * h * 4` bytes; the canvas takes the frame's size either way, or
      the default size for a dimension above 2^31 - 1. */
  lemma FrameDrawnIff(v: Renderer.View, img: Frame.Image,
                      parse: string -> Option<Json>, atob: Option<Json> -> Option<seq<byte>>)
    requires img.w < U32_LIMIT && img.h < U32_LIMIT
    ensures var r := Renderer.OnMessage(v, Frame.OnRgba(img).1, parse, atob);
      && r.canvasWidth == Renderer.CanvasDim(img.w, Renderer.DEFAULT_CANVAS_WIDTH)
      && r.canvasHeight == Renderer.CanvasDim(img.h, Renderer.DEFAULT_CANVAS_HEIGHT)
      && (Drawable(img) ==> r.canvas == Some(Frame.SwapRB(img.raw)))
      && (!Drawable(img) ==>
            r.canvas == if v.canvasWidth == img.w && v.canvasHeight == img.h then v.canvas else None)
  {
    VideoRoundTrip(TruncateU32(img.w), TruncateU32(img.h), Frame.SwapRB(img.raw));
  }

  /** The frame sizes the renderer draws. */
  predicate Drawable(img: Frame.Image)
  {
    0 < img.w <= Renderer.CANVAS_DIM_MAX && 0 < img.h <= Renderer.CANVAS_DIM_MAX
    && |img.raw| == img.w * img.h * 4
  }

  /** A width of 2^32 or more wraps in the `as u32` cast: a 2^32-pixel-wide
      frame arrives with width 0 and is never drawn. */
  lemma WideFrameWraps(v: Renderer.View, h: nat, raw: seq<byte>,
                       parse: string -> Option<Json>, atob: Option<Json> -> Option<seq<byte>>)
    requires h < U32_LIMIT
    ensures var r := Renderer.OnMessage(v, Frame.OnRgba(Frame.Image(U32_LIMIT, h, raw)).1, parse, atob);
      r.videoWidth == 0 && r.canvasWidth == 0 && (r.canvas == v.canvas || r.canvas.None?)
  {
    var img := Frame.Image(U32_LIMIT, h, raw);
    VideoRoundTrip(TruncateU32(img.w), TruncateU32(img.h), Frame.SwapRB(img.raw));
  }

  /** A `cursor_data` message replaces the renderer's cursor exactly when
      the colour bytes fill `width * height * 4`, and leaves the video
      alone. `text` is what `to_string` wrote for the cursor's object;
      `JSON.parse` reads it back and `atob` inverts the base64. */
  lemma CursorAppliedIff(v: Renderer.View, cd: Frame.CursorData, b64: string, text: string,
                         parse: string -> Option<Json>, atob: Option<Json> -> Option<seq<byte>>)
    requires text != [] && text[0] == '{'
    requires parse(text) == Some(Frame.CursorDataJson(cd, b64))
    requires atob(Some(JStr(b64))) == Some(cd.colors)
    ensures var r := Renderer.OnMessage(v, Frame.ControlMessage(text), parse, atob);
      && r.canvas == v.canvas && r.videoWidth == v.videoWidth && r.videoHeight == v.videoHeight
      && r.cursor == if Renderer.ImageDataLen(cd.width, cd.height) == Some(|cd.colors|)
                     then Some(Renderer.Cursor(cd.colors, Some(JInt(cd.hotx)), Some(JInt(cd.hoty))))
                     else v.cursor
  {
    ObjectTextRoundTrip(text);
    var j := Frame.CursorDataJson(cd, b64);
    assert Renderer.OnMessage(v, Frame.ControlMessage(text), parse, atob) == Renderer.ApplyControl(v, Some(j), atob);
    CursorDataRead(v, cd, b64, atob);
  }

  lemma CursorDataRead(v: Renderer.View, cd: Frame.CursorData, b64: string, atob: Option<Json> -> Option<seq<byte>>)
    requires atob(Some(JStr(b64))) == Some(cd.colors)
    ensures var r := Renderer.ApplyControl(v, Some(Frame.CursorDataJson(cd, b64)), atob);
      r.cursor == if Renderer.ImageDataLen(cd.width, cd.height) == Some(|cd.colors|)
                  then Some(Renderer.Cursor(cd.colors, Some(JInt(cd.hotx)), Some(JInt(cd.hoty))))
                  else v.cursor
  {
    var ms := Frame.CursorDataJson(cd, b64).members;
    CursorFields(cd, b64);
    CursorObjectRead(v, ms, atob, cd.colors, cd.width, cd.height);
  }

  /** What `ApplyControl` makes of any `cursor_data` object whose fields
      read back as the given values. */
  lemma CursorObjectRead(v: Renderer.View, ms: seq<(string, Json)>, atob: Option<Json> -> Option<seq<byte>>,
                         bytes: seq<byte>, w: int, h: int)
    requires LastValue(ms, "type") == Some(JStr("cursor_data"))
    requires atob(LastValue(ms, "data")) == Some(bytes)
    requires LastValue(ms, "width") == Some(JInt(w)) && LastValue(ms, "height") == Some(JInt(h))
    ensures var r := Renderer.ApplyControl(v, Some(JObj(ms)), atob);
      r.cursor == if Renderer.ImageDataLen(w, h) == Some(|bytes|)
                  then Some(Renderer.Cursor(bytes, LastValue(ms, "hotx"), LastValue(ms, "hoty")))
                  else v.cursor
  {
  }

  /** Every field the renderer reads from a `cursor_data` object has the
      value the bridge wrote. */
  lemma CursorFields(cd: Frame.CursorData, b64: string)
    ensures var ms := Frame.CursorDataJson(cd, b64).members;
      && LastValue(ms, "type") == Some(JStr("cursor_data"))
      && LastValue(ms, "data") == Some(JStr(b64))
      && LastValue(ms, "width") == Some(JInt(cd.width))
      && LastValue(ms, "height") == Some(JInt(cd.height))
      && LastValue(ms, "hotx") == Some(JInt(cd.hotx))
      && LastValue(ms, "hoty") == Some(JInt(cd.hoty))
  {
    var ms := Frame.CursorDataJson(cd, b64).members;
    LastOfOne(ms, "type", JStr("cursor_data"));
    LastOfOne(ms, "data", JStr(b64));
    LastOfOne(ms, "width", JInt(cd.width));
    LastOfOne(ms, "height", JInt(cd.height));
    LastOfOne(ms, "hotx", JInt(cd.hotx));
    LastOfOne(ms, "hoty", JInt(cd.hoty));
  }

  /** A `cursor_position` message records the bridge's coordinates. */
  lemma CursorPositionApplied(v: Renderer.View, x: int, y: int, text: string,
                              parse: string -> Option<Json>, atob: Option<Json> -> Option<seq<byte>>)
    requires text != [] && text[0] == '{'
    requires parse(text) == Some(Frame.CursorPositionJson(x, y))
    ensures var r := Renderer.OnMessage(v, Frame.ControlMessage(text), parse, atob);
      r.cursorAt == Some((Some(JInt(x)), Some(JInt(y)))) && r.cursor == v.cursor && r.canvas == v.canvas
  {
    ObjectTextRoundTrip(text);
  }

  // ---------------------------------------------------------------------
  // Renderer events through serde

  /** The `i32` a wheel delta reaches the bridge as, after the renderer's
      negation; `None` for a fractional delta (sent as a JSON float) or one
      outside `i32`. */
  function WheelDelta(d: real): (r: Option<int>)
    ensures r.Some? ==> Input.IsI32(r.value) && r.value as real == -d
  {
    if d == d.Floor as real && Input.IsI32(-d.Floor) then Some(-d.Floor) else None
  }

  /** The `InputEvent` the bridge should decode from a renderer event, if
      any. */
  function ExpectedEvent(e: Renderer.UiEvent): (r: Option<Input.InputEvent>)
    ensures r.Some? ==> Input.WellFormed(r.value)
  {
    match e
    case UiMove(x, y) =>
      if Input.IsI32(x) && Input.IsI32(y) then Some(Input.MouseMove(x, y)) else None
    case UiDown(b, x, y) =>
      if Input.IsI32(x) && Input.IsI32(y) then Some(Input.MouseDown(Renderer.ButtonName(b), x, y)) else None
    case UiUp(b, x, y) =>
      if Input.IsI32(x) && Input.IsI32(y) then Some(Input.MouseUp(Renderer.ButtonName(b), x, y)) else None
    case UiWheel(dx, dy) =>
      if WheelDelta(dx).Some? && WheelDelta(dy).Some? then
        Some(Input.Wheel(WheelDelta(dx).value, WheelDelta(dy).value))
      else None
    case UiKeyDown(k) => Some(Input.KeyDown(k))
    case UiKeyUp(k) => Some(Input.KeyUp(k))
  }

  /** What the renderer sends is decoded by serde exactly when the expected
      event exists, and then into that event. */
  lemma UiEventParses(e: Renderer.UiEvent)
    ensures Input.ParseEvent(Renderer.OutgoingJson(e)).Ok? <==> ExpectedEvent(e).Some?
    ensures ExpectedEvent(e).Some? ==> Input.ParseEvent(Renderer.OutgoingJson(e)) == Ok(ExpectedEvent(e).value)
  {
    match e
    case UiMove(x, y) => SameJsonParses(e, Input.MouseMove(x, y));
    case UiDown(b, x, y) => SameJsonParses(e, Input.MouseDown(Renderer.ButtonName(b), x, y));
    case UiUp(b, x, y) => SameJsonParses(e, Input.MouseUp(Renderer.ButtonName(b), x, y));
    case UiKeyDown(k) => SameJsonParses(e, Input.KeyDown(k));
    case UiKeyUp(k) => SameJsonParses(e, Input.KeyUp(k));
    case UiWheel(dx, dy) => WheelParses(dx, dy);
  }

  /** A renderer event written as the bridge's own JSON for `ev` parses
      as `ev` whenever `ev` is the expected event. */
  lemma SameJsonParses(e: Renderer.UiEvent, ev: Input.InputEvent)
    requires Renderer.OutgoingJson(e) == Input.EventJson(ev)
    requires ExpectedEvent(e).Some? <==> Input.WellFormed(ev)
    requires ExpectedEvent(e).Some? ==> ExpectedEvent(e).value == ev
    ensures Input.ParseEvent(Renderer.OutgoingJson(e)).Ok? <==> ExpectedEvent(e).Some?
    ensures ExpectedEvent(e).Some? ==> Input.ParseEvent(Renderer.OutgoingJson(e)) == Ok(ExpectedEvent(e).value)
  {
    Input.ParseEventJson(ev);
  }

  lemma WheelParses(dx: real, dy: real)
    ensures Input.ParseEvent(Renderer.OutgoingJson(Renderer.UiWheel(dx, dy))).Ok?
      <==> WheelDelta(dx).Some? && WheelDelta(dy).Some?
    ensures WheelDelta(dx).Some? && WheelDelta(dy).Some? ==>
      Input.ParseEvent(Renderer.OutgoingJson(Renderer.UiWheel(dx, dy)))
        == Ok(Input.Wheel(WheelDelta(dx).value, WheelDelta(dy).value))
  {
    if WheelDelta(dx).Some? && WheelDelta(dy).Some? {
      WheelAccepted(dx, dy);
    } else {
      WheelRefused(dx, dy);
    }
  }

  lemma WheelAccepted(dx: real, dy: real)
    requires WheelDelta(dx).Some? && WheelDelta(dy).Some?
    ensures Input.ParseEvent(Renderer.OutgoingJson(Renderer.UiWheel(dx, dy)))
      == Ok(Input.Wheel(WheelDelta(dx).value, WheelDelta(dy).value))
  {
    WheelDeltaJs(dx);
    WheelDeltaJs(dy);
    var ev := Input.Wheel(WheelDelta(dx).value, WheelDelta(dy).value);
    assert Renderer.OutgoingJson(Renderer.UiWheel(dx, dy)) == Input.EventJson(ev);
    Input.ParseEventJson(ev);
  }

  lemma WheelRefused(dx: real, dy: real)
    requires WheelDelta(dx).None? || WheelDelta(dy).None?
    ensures Input.ParseEvent(Renderer.OutgoingJson(Renderer.UiWheel(dx, dy))).Err?
  {
    WheelDeltaJs(dx);
    WheelDeltaJs(dy);
    var ms := Renderer.OutgoingJson(Renderer.UiWheel(dx, dy)).members;
    DistinctValues(ms);
    assert ms[0] == ("type", JStr("wheel"));
    assert ms[1] == ("delta_x", JsNumber(-dx)) && ms[2] == ("delta_y", JsNumber(-dy));
    WheelObjectRefused(ms, JsNumber(-dx), JsNumber(-dy));
  }

  /** A wheel object one of whose deltas is not an `i32` integer is
      refused, whatever else it holds. */
  lemma WheelObjectRefused(ms: seq<(string, Json)>, vx: Json, vy: Json)
    requires ValuesOf(ms, "type") == [JStr("wheel")]
    requires ValuesOf(ms, "delta_x") == [vx] && ValuesOf(ms, "delta_y") == [vy]
    requires !(vx.JInt? && Input.IsI32(vx.i)) || !(vy.JInt? && Input.IsI32(vy.i))
    ensures Input.ParseEvent(JObj(ms)).Err?
  {
    assert Input.TagOf(ms) == Ok("wheel");
    assert Input.I32Field(ms, "delta_x").Err? || Input.I32Field(ms, "delta_y").Err?;
  }

  /** The JSON number the renderer writes for a wheel delta is an `i32`
      integer exactly when `WheelDelta` has a value, and then that value. */
  lemma WheelDeltaJs(d: real)
    ensures JsNumber(-d).JInt? && Input.IsI32(JsNumber(-d).i) <==> WheelDelta(d).Some?
    ensures WheelDelta(d).Some? ==> JsNumber(-d) == JInt(WheelDelta(d).value)
  {
    if d == d.Floor as real {
      assert (-d).Floor == -d.Floor;
    } else {
      assert -d != (-d).Floor as real;
    }
  }

  /** A wheel turned by a fractional amount (as trackpads and zoomed pages
      report) is written as a JSON float, which the `i32` field refuses, so
      the whole event is dropped. */
  lemma FractionalWheelDropped(dx: real, dy: real)
    requires dx != dx.Floor as real
    ensures Input.ParseEvent(Renderer.OutgoingJson(Renderer.UiWheel(dx, dy))).Err?
  {
    WheelParses(dx, dy);
  }

  /** The renderer only ever names "left", "middle" or "right", so with
      non-zero engine codes for left and right the button code of a
      renderer click is never 0, and the mask carries it. */
  lemma RendererButtonNonZero(codes: MouseCodes, button: int, x: int, y: int)
    requires codes.buttonLeft != 0 && codes.buttonRight != 0
    ensures Input.ButtonCode(codes, Renderer.ButtonName(button)) != 0
    ensures Input.CodesFit(codes) ==>
      Input.MaskButton(Input.TranslateEvent(codes, Input.MouseDown(Renderer.ButtonName(button), x, y)).value.mask) != 0
  {
    if Input.CodesFit(codes) {
      Input.PressMaskParts(codes, Input.MouseDown(Renderer.ButtonName(button), x, y));
    }
  }

  /** An input event sent while the socket is open, arriving on a streaming
      connection, reaches the engine's channel as its translation; sent
      while the socket is not open, it never leaves the page. */
  lemma RendererInputReachesEngine(s: Relay.Server, e: Renderer.UiEvent)
    requires s.phase.Streaming? && ExpectedEvent(e).Some?
    ensures Relay.Step(s, Relay.SelectInbound(Relay.Text(Renderer.SendInput(Renderer.Open, e)))).slot
      == Adapter.HandleInputEvent(s.slot, s.codes, ExpectedEvent(e).value)
    ensures forall st :: st != Renderer.Open ==> Renderer.SendInput(st, e).None?
  {
    UiEventParses(e);
    var j := Renderer.OutgoingJson(e);
    assert Renderer.SendInput(Renderer.Open, e) == Some(j);
    Relay.GoodTextHandled(s, j);
  }
}
