/** The outbound side of the relay bridge (`src/electron_interface.rs`):
    how `ElectronUiHandler` frames what the session engine hands it. Every
    message starts with a one-byte tag: 0 for a video frame, 1 for a JSON
    control message. */
module Frame {
  import opened Bytes
  import opened Json
  import Utf8

  const VIDEO_TAG: byte := 0
  const CONTROL_TAG: byte := 1

  /** Length of a video frame header: tag, width, height. */
  const VIDEO_HEADER: nat := 9

  /** Where byte `i` of an `n`-byte buffer comes from after the red/blue
      swap: bytes 0 and 2 of every complete 4-byte pixel trade places;
      bytes 1 and 3 and a trailing partial pixel stay put. */
  function SwapSource(n: nat, i: nat): (j: nat)
    requires i < n
    ensures j < n
  {
    if i >= n - n % 4 then i
    else if i % 4 == 0 then i + 2
    else if i % 4 == 2 then i - 2
    else i
  }

  lemma SwapSourceShift(n: nat, i: nat)
    requires 4 <= i < n
    ensures SwapSource(n, i) == SwapSource(n - 4, i - 4) + 4
  {
    assert (n - 4) % 4 == n % 4;
    assert (i - 4) % 4 == i % 4;
  }

  /** Swapping twice puts every byte back where it started. */
  lemma SwapSourceInvolution(n: nat, i: nat)
    requires i < n
    ensures SwapSource(n, SwapSource(n, i)) == i
  {
  }

  /** The loop over `chunks_exact_mut(4)` in `on_rgba`. */
  function SwapRB(raw: seq<byte>): (r: seq<byte>)
    ensures |r| == |raw|
    ensures forall i :: 0 <= i < |raw| ==> r[i] == raw[SwapSource(|raw|, i)]
    decreases |raw|
  {
    if |raw| < 4 then raw
    else
      var rest := SwapRB(raw[4..]);
      SwapRBStep(raw, rest);
      [raw[2], raw[1], raw[0], raw[3]] + rest
  }

  /** Swapping the first pixel in front of an already swapped tail swaps
      the whole buffer. */
  lemma SwapRBStep(raw: seq<byte>, rest: seq<byte>)
    requires |raw| >= 4 && |rest| == |raw| - 4
    requires forall i :: 0 <= i < |rest| ==> rest[i] == raw[4..][SwapSource(|rest|, i)]
    ensures forall i :: 0 <= i < |raw| ==>
      ([raw[2], raw[1], raw[0], raw[3]] + rest)[i] == raw[SwapSource(|raw|, i)]
  {
    var r := [raw[2], raw[1], raw[0], raw[3]] + rest;
    forall i | 0 <= i < |raw|
      ensures r[i] == raw[SwapSource(|raw|, i)]
    {
      if i >= 4 {
        SwapSourceShift(|raw|, i);
        assert r[i] == rest[i - 4];
        assert rest[i - 4] == raw[4..][SwapSource(|rest|, i - 4)];
      }
    }
  }

  /** The swap undoes itself: swapping the wire pixels restores the
      engine's buffer. */
  lemma SwapRBInvolution(raw: seq<byte>)
    ensures SwapRB(SwapRB(raw)) == raw
  {
    var twice := SwapRB(SwapRB(raw));
    forall i | 0 <= i < |raw|
      ensures twice[i] == raw[i]
    {
      SwapSourceInvolution(|raw|, i);
    }
  }

  /** A video frame message: tag 0, width and height as little-endian
      `u32`, then the pixels, with no length field. */
  function VideoMessage(w: u32, h: u32, pixels: seq<byte>): (r: seq<byte>)
    ensures |r| == VIDEO_HEADER + |pixels|
    ensures r[0] == VIDEO_TAG && r[VIDEO_HEADER..] == pixels
  {
    [VIDEO_TAG] + LE32(w) + LE32(h) + pixels
  }

  /** The engine's `ImageRgb`: a width and height (`usize`) and a pixel buffer. */
  datatype Image = Image(w: nat, h: nat, raw: seq<byte>)

  /** `on_rgba`: swaps the buffer in place (the caller sees the swapped
      buffer afterwards) and builds the message from the swapped bytes, with
      the dimensions cut to `u32`. Returns the image as the caller holds it
      after the call, and the message. */
  function OnRgba(img: Image): (r: (Image, seq<byte>))
    ensures r.0.w == img.w && r.0.h == img.h
    ensures r.0.raw == SwapRB(img.raw)
    ensures |r.1| == VIDEO_HEADER + |img.raw|
    ensures r.1 == VideoMessage(TruncateU32(img.w), TruncateU32(img.h), r.0.raw)
  {
    var swapped := SwapRB(img.raw);
    (img.(raw := swapped), [VIDEO_TAG] + LE32(TruncateU32(img.w)) + LE32(TruncateU32(img.h)) + swapped)
  }

  /** Because the swap happens in the caller's buffer, handing the same
      image to `on_rgba` twice sends the original, unswapped bytes the
      second time. */
  lemma OnRgbaTwice(img: Image)
    ensures OnRgba(OnRgba(img).0).1 == VideoMessage(TruncateU32(img.w), TruncateU32(img.h), img.raw)
    ensures OnRgba(OnRgba(img).0).0 == img
  {
    SwapRBInvolution(img.raw);
  }

  /** A control message: tag 1 and the UTF-8 bytes of the JSON text, with
      no length prefix. */
  function ControlMessage(text: string): (r: seq<byte>)
    ensures |r| == 1 + |Utf8.Encode(text)|
    ensures r[0] == CONTROL_TAG && r[1..] == Utf8.Encode(text)
  {
    [CONTROL_TAG] + Utf8.Encode(text)
  }

  /** The engine's `CursorData` (protobuf): the fields the handler reads. */
  datatype CursorData = CursorData(id: int, hotx: int, hoty: int, width: int, height: int, colors: seq<byte>)

  /** The object `set_cursor_data` serialises; `data` is the base64 text of
      the colour bytes (base64 itself is not modelled). Each field is
      written once, so any reader finds the cursor's own values. */
  function CursorDataJson(cd: CursorData, base64: string): (j: Json)
    ensures j.JObj?
    ensures ValuesOf(j.members, "type") == [JStr("cursor_data")]
    ensures ValuesOf(j.members, "hotx") == [JInt(cd.hotx)] && ValuesOf(j.members, "hoty") == [JInt(cd.hoty)]
    ensures ValuesOf(j.members, "width") == [JInt(cd.width)] && ValuesOf(j.members, "height") == [JInt(cd.height)]
    ensures ValuesOf(j.members, "data") == [JStr(base64)] && ValuesOf(j.members, "id") == [JInt(cd.id)]
  {
    var ms := [("type", JStr("cursor_data")), ("id", JInt(cd.id)), ("hotx", JInt(cd.hotx)),
               ("hoty", JInt(cd.hoty)), ("width", JInt(cd.width)), ("height", JInt(cd.height)),
               ("data", JStr(base64))];
    DistinctValues(ms);
    assert ms[0].0 == "type" && ms[1].0 == "id" && ms[2].0 == "hotx" && ms[3].0 == "hoty";
    assert ms[4].0 == "width" && ms[5].0 == "height" && ms[6].0 == "data";
    JObj(ms)
  }

  /** The object `set_cursor_position` serialises. */
  function CursorPositionJson(x: int, y: int): (j: Json)
    ensures j.JObj?
    ensures ValuesOf(j.members, "type") == [JStr("cursor_position")]
    ensures ValuesOf(j.members, "x") == [JInt(x)] && ValuesOf(j.members, "y") == [JInt(y)]
  {
    var ms := [("type", JStr("cursor_position")), ("x", JInt(x)), ("y", JInt(y))];
    DistinctValues(ms);
    assert ms[0].0 == "type" && ms[1].0 == "x" && ms[2].0 == "y";
    JObj(ms)
  }
}
