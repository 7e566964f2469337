/** The UI end of the relay (`electron/renderer.js`): how `ws.onmessage`
    decodes the bridge's binary messages and what it does to the view, and
    how the input handlers turn browser events into JSON input events.
    Float coordinate scaling, the DOM and `atob` are outside the model:
    scaled coordinates arrive already rounded, and base64 decoding is a
    parameter. */
module Renderer {
  import opened Wrappers
  import opened Bytes
  import opened Json
  import Utf8
  import Text

  /** The port the renderer dials, `ws://127.0.0.1:21121`. */
  const RENDERER_PORT: nat := 21121

  /** What `ws.onmessage` makes of one binary message. `Malformed` stands
      for a message so short that a `DataView` read throws before anything
      changes. */
  datatype WireMessage =
    | VideoFrame(w: u32, h: u32, pixels: seq<byte>)
    | ControlText(text: string)
    | OtherTag(tag: byte)
    | Malformed

  /** The decoder: tag byte, then for tag 0 two little-endian `u32` and the
      pixels from offset 9, for tag 1 the UTF-8 text from offset 1, read by
      a default `TextDecoder` (which drops a leading byte-order mark). */
  function DecodeMessage(b: seq<byte>): (r: WireMessage)
    ensures r.Malformed? <==> |b| == 0 || (b[0] == 0 && |b| < 9)
    ensures r.VideoFrame? ==> |b| == 9 + |r.pixels| && b[9..] == r.pixels
    ensures r.VideoFrame? ==> r.w == ReadLE32(b, 1) && r.h == ReadLE32(b, 5)
    ensures r.ControlText? <==> |b| > 0 && b[0] == 1
    ensures r.OtherTag? <==> |b| > 0 && b[0] > 1
  {
    if |b| == 0 then Malformed
    else if b[0] == 0 then
      if |b| < 9 then Malformed else VideoFrame(ReadLE32(b, 1), ReadLE32(b, 5), b[9..])
    else if b[0] == 1 then ControlText(Utf8.TextDecode(b[1..]))
    else OtherTag(b[0])
  }

  /** The cursor overlay once an image was applied. */
  datatype Cursor = Cursor(pixels: seq<byte>, hotx: Option<Json>, hoty: Option<Json>)

  /** A canvas `width` or `height` is a reflected `unsigned long`: it never
      exceeds 2^31 - 1, and setting a larger value stores the default
      instead. */
  const CANVAS_DIM_MAX: nat := 0x7FFF_FFFF
  type CanvasSize = n: nat | n <= CANVAS_DIM_MAX
  const DEFAULT_CANVAS_WIDTH: CanvasSize := 300
  const DEFAULT_CANVAS_HEIGHT: CanvasSize := 150

  /** The part of the page the messages change. `canvas` is the drawn
      bitmap, `None` while blank (a resize clears it). `cursorAt` holds the
      last `cursor_position` coordinates as received; the screen position
      computed from them is floating-point layout and is not modelled. */
  datatype View = View(
    videoWidth: u32,
    videoHeight: u32,
    canvasWidth: CanvasSize,
    canvasHeight: CanvasSize,
    canvas: Option<seq<byte>>,
    cursor: Option<Cursor>,
    cursorAt: Option<(Option<Json>, Option<Json>)>)

  /** The page on load: nothing drawn, no cursor, the canvas at its
      initial size. */
  function InitialView(canvasWidth: CanvasSize, canvasHeight: CanvasSize): (v: View)
    ensures v.videoWidth == 0 && v.videoHeight == 0
    ensures v.canvas.None? && v.cursor.None? && v.cursorAt.None?
  {
    View(0, 0, canvasWidth, canvasHeight, None, None, None)
  }

  /** `createImageData(w, h).data.length`. `None` where the call throws:
      a dimension of zero, or one outside the Web IDL `long` range (the
      arguments are `[EnforceRange] long`). Negative dimensions count by
      magnitude. */
  function ImageDataLen(w: int, h: int): (r: Option<nat>)
    ensures r.Some? <==> w != 0 && h != 0 && Text.I32_MIN <= w <= Text.I32_MAX && Text.I32_MIN <= h <= Text.I32_MAX
    ensures r.Some? ==> r.value == Magnitude(w) * Magnitude(h) * 4
  {
    if w == 0 || h == 0 || !(Text.I32_MIN <= w <= Text.I32_MAX && Text.I32_MIN <= h <= Text.I32_MAX) then None
    else Some(Magnitude(w) * Magnitude(h) * 4)
  }

  function Magnitude(x: int): nat
  {
    if x < 0 then -x else x
  }

  /** The size a canvas dimension takes when `d` is assigned to it. */
  function CanvasDim(d: nat, default: CanvasSize): (r: CanvasSize)
    ensures r == d <==> d <= CANVAS_DIM_MAX || d == default
  {
    if d <= CANVAS_DIM_MAX then d else default
  }

  /** Tag 0: record the dimensions and resize the canvas when they differ
      from its size (which clears it) before anything else; then draw the
      pixels only if `createImageData` succeeds and there are exactly
      `w * h * 4` of them. When it throws, the handler ends after the
      resize. */
  function ApplyVideo(v: View, w: u32, h: u32, pixels: seq<byte>): (r: View)
    ensures r.videoWidth == w && r.videoHeight == h
    ensures w <= CANVAS_DIM_MAX ==> r.canvasWidth == w
    ensures h <= CANVAS_DIM_MAX ==> r.canvasHeight == h
    ensures w > CANVAS_DIM_MAX ==> r.canvasWidth == DEFAULT_CANVAS_WIDTH
    ensures h > CANVAS_DIM_MAX ==> r.canvasHeight == DEFAULT_CANVAS_HEIGHT
    ensures r.cursor == v.cursor && r.cursorAt == v.cursorAt
    ensures ImageDataLen(w, h) == Some(|pixels|) ==> r.canvas == Some(pixels)
    ensures ImageDataLen(w, h) != Some(|pixels|) ==>
      r.canvas == if v.canvasWidth == w && v.canvasHeight == h then v.canvas else None
  {
    var resized := v.canvasWidth != w || v.canvasHeight != h;
    var v1 := v.(videoWidth := w, videoHeight := h,
                 canvasWidth := if resized then CanvasDim(w, DEFAULT_CANVAS_WIDTH) else v.canvasWidth,
                 canvasHeight := if resized then CanvasDim(h, DEFAULT_CANVAS_HEIGHT) else v.canvasHeight,
                 canvas := if resized then None else v.canvas);
    if ImageDataLen(w, h) == Some(|pixels|) then v1.(canvas := Some(pixels)) else v1
  }

  /** A frame too large for the canvas attributes is never drawn, and it
      clears the canvas: the stored size never equals the frame's, so the
      resize runs every time. */
  lemma OversizedFrameClears(v: View, w: u32, h: u32, pixels: seq<byte>)
    requires w > CANVAS_DIM_MAX || h > CANVAS_DIM_MAX
    ensures ApplyVideo(v, w, h, pixels).canvas.None?
  {
  }

  /** The JavaScript value of `msg.width`: only integral numbers are
      modelled; anything else leaves the cursor alone. */
  function IntOf(j: Option<Json>): Option<int>
  {
    if j.Some? && j.value.JInt? then Some(j.value.i) else None
  }

  /** Tag 1 after `JSON.parse` (`None`: it threw and the error was logged).
      A `cursor_data` object replaces the cursor when the decoded bytes fill
      `width * height * 4`; a `cursor_position` object moves it; anything
      else changes nothing. `atob` is base64 decoding of `msg.data`, `None`
      when it throws. */
  function ApplyControl(v: View, parsed: Option<Json>, atob: Option<Json> -> Option<seq<byte>>): (r: View)
    ensures r.videoWidth == v.videoWidth && r.videoHeight == v.videoHeight && r.canvas == v.canvas
    ensures r.canvasWidth == v.canvasWidth && r.canvasHeight == v.canvasHeight
    ensures r.cursor != v.cursor ==>
      (parsed.Some? && parsed.value.JObj? && LastValue(parsed.value.members, "type") == Some(JStr("cursor_data")))
  {
    if parsed.None? || !parsed.value.JObj? then v
    else
      var ms := parsed.value.members;
      var ty := LastValue(ms, "type");
      if ty == Some(JStr("cursor_data")) then
        match atob(LastValue(ms, "data"))
        case None => v
        case Some(bytes) =>
          var w := IntOf(LastValue(ms, "width"));
          var h := IntOf(LastValue(ms, "height"));
          if w.None? || h.None? then v
          else if ImageDataLen(w.value, h.value) == Some(|bytes|) then
            v.(cursor := Some(Cursor(bytes, LastValue(ms, "hotx"), LastValue(ms, "hoty"))))
          else v
      else if ty == Some(JStr("cursor_position")) then
        v.(cursorAt := Some((LastValue(ms, "x"), LastValue(ms, "y"))))
      else v
  }

  /** `ws.onmessage`: decode, then act on the tag; `parse` is `JSON.parse`
      (`None`: it threw). Unknown tags and short messages change nothing. */
  function OnMessage(v: View, b: seq<byte>, parse: string -> Option<Json>,
                     atob: Option<Json> -> Option<seq<byte>>): (r: View)
    ensures (|b| == 0 || b[0] > 1 || (b[0] == 0 && |b| < 9)) ==> r == v
    ensures |b| > 0 && b[0] == 1 ==> r.canvas == v.canvas && r.videoWidth == v.videoWidth
  {
    match DecodeMessage(b)
    case VideoFrame(w, h, pixels) => ApplyVideo(v, w, h, pixels)
    case ControlText(text) => ApplyControl(v, parse(text), atob)
    case OtherTag(_) => v
    case Malformed => v
  }

  // ---------------------------------------------------------------------
  // Input handlers

  /** `MouseEvent.button` to the name the bridge expects. */
  function ButtonName(button: int): (r: string)
    ensures r in {"left", "middle", "right"}
    ensures r == "middle" <==> button == 1
    ensures r == "right" <==> button == 2
  {
    if button == 2 then "right" else if button == 1 then "middle" else "left"
  }

  /** The browser events the canvas and window listen to, with pointer
      coordinates already scaled and rounded and wheel deltas as reported. */
  datatype UiEvent =
    | UiMove(x: int, y: int)
    | UiDown(button: int, x: int, y: int)
    | UiUp(button: int, x: int, y: int)
    | UiWheel(deltaX: real, deltaY: real)
    | UiKeyDown(key: string)
    | UiKeyUp(key: string)

  /** The object each listener hands to `sendInput`, as `JSON.stringify`
      writes it. Wheel deltas are negated. */
  function OutgoingJson(e: UiEvent): (j: Json)
    ensures j.JObj? && |j.members| >= 2 && j.members[0].0 == "type"
  {
    match e
    case UiMove(x, y) => JObj([("type", JStr("mousemove")), ("x", JInt(x)), ("y", JInt(y))])
    case UiDown(b, x, y) =>
      JObj([("type", JStr("mousedown")), ("btn", JStr(ButtonName(b))), ("x", JInt(x)), ("y", JInt(y))])
    case UiUp(b, x, y) =>
      JObj([("type", JStr("mouseup")), ("btn", JStr(ButtonName(b))), ("x", JInt(x)), ("y", JInt(y))])
    case UiWheel(dx, dy) =>
      JObj([("type", JStr("wheel")), ("delta_x", JsNumber(-dx)), ("delta_y", JsNumber(-dy))])
    case UiKeyDown(k) => JObj([("type", JStr("keydown")), ("key", JStr(k))])
    case UiKeyUp(k) => JObj([("type", JStr("keyup")), ("key", JStr(k))])
  }

  /** `WebSocket.readyState`. */
  datatype ReadyState = Connecting | Open | Closing | Closed

  /** `sendInput`: what goes on the socket; nothing unless it is open. */
  function SendInput(state: ReadyState, e: UiEvent): (r: Option<Json>)
    ensures r.Some? <==> state == Open
    ensures r.Some? ==> r.value.JObj? && |r.value.members| >= 2
  {
    if state == Open then Some(OutgoingJson(e)) else None
  }
}
