# sdfdesk relay bridge and headless session manager, modelled in Dafny

sdfdesk is a remote-desktop client. Its terminal client (`--connect`) does
not draw anything itself. It runs a local websocket relay bridge that
passes decoded video frames and cursor updates to a separate UI process
(an Electron renderer). The renderer sends mouse and keyboard events back
as JSON, and the bridge translates them for the session engine. On the
server side, a headless mode logs the machine into a loopback RDP session
when no display is attached, so there is something to capture.

This project models that core. Each module follows one part of the program:

- `Bytes`, `Utf8`, `Text`, `Json`, `Wrappers`: the library behaviour the
  code relies on. These cover `u32::to_le_bytes`, `DataView.getUint32`,
  `str::as_bytes` and `TextDecoder`, Rust's `split`, `lines`,
  `split_whitespace`, `to_lowercase` and integer `FromStr`, JavaScript's
  `obj[key]` and `JSON.stringify` for numbers, and parsed JSON values.
- `Proto`: the engine's message types, reduced to the fields the bridge sets.
- `Frame`: the outbound framing of `ElectronUiHandler`. This is the video
  frame (`on_rgba`) with its in-place red/blue swap, and the tag-1 JSON
  control messages for the cursor.
- `Input`: the inbound path. It covers the `InputEvent` enum and how serde
  decodes it, the mouse mask of `handle_input_event`, and the key table
  and fallbacks of `send_key`.
- `Adapter`: the shared optional sender behind `DummyInterface::send`.
- `Relay`: the accept loop and the `select!` loop of
  `start_electron_server`, as a state machine over a trace of events.
- `Renderer`: `ws.onmessage` in `renderer.js`, the button mapping, wheel
  negation and the `sendInput` guard.
- `Bridge`: properties spanning both ends. These are the round trips of
  the two message kinds, and which renderer events reach the engine.
- `Rdp`: the credential and session slots of `rdp_session.rs`, the
  `.rdp` file, the log-off selection over the `qwinsta` listing, and the
  display check.
- `Cli`: the `--port-forward` parser and the `--rdp-id`/`--rdp-pw`
  pairing of `main.rs`. It also covers the password source, the
  `msgbox` dispatch and the client-executable search of `cli.rs`.

Process execution, the file system, the terminal prompt, `try_wait` and
display enumeration are parameters (oracles). Commands the code would run
are returned as values of `Rdp.Command` rather than executed.

Behaviour of the code as written that a reader may not expect, all of it
modelled as written:

- A key counts as "one character" by its UTF-8 byte length (`key.len() == 1`).
  A single non-ASCII character is therefore dropped (`Input.SingleNonAsciiKey`).
- The accept loop is sequential. A second connection waits in the backlog
  until the current one ends; it does not replace the current one.
- The bridge listens on port 21118 (`Cli.LOCAL_SERVER_PORT`,
  src/cli.rs:133). The renderer dials 21121 (`Renderer.RENDERER_PORT`,
  electron/renderer.js:20). The two addresses differ
  (`Cli.RendererDialsAnotherPort`).
- The renderer's `TextDecoder` drops a leading U+FEFF from a control
  message, taking its encoding for a byte-order mark
  (`Bridge.ControlRoundTrip`). The bridge's JSON objects start with `{`, so
  they are not affected.
- `stop_rdp_session` runs `stop` twice: once explicitly, and once more when
  clearing the slot drops the session. Replacing a stale session in
  `start_rdp_session_if_needed` drops it too, so its `stop` commands follow
  the new spawn, including a `logoff` of the current session.
- `stop` deletes the credentials stored under `127.0.0.1`, but `start`
  stores them under `TERMSRV/127.0.0.1`. The stored credentials are never
  deleted (`Rdp.StopKeepsStoredCredentials`).
- src/main.rs:261 calls `cli::connect_test` with seven arguments, but
  src/cli.rs:132 declares three. The model of `connect_test` follows
  src/cli.rs.

## Model

| member | source | states |
|---|---|---|
| Bytes.TruncateU32 | src/electron_interface.rs:180-181 | `as u32` keeps the value below 2^32 and otherwise differs from it by a multiple of 2^32 |
| Bytes.LE32 | src/electron_interface.rs:180-181 | `to_le_bytes` gives four bytes, least significant first |
| Bytes.ReadLE32OfLE32 | electron/renderer.js:43-44 | a little-endian `getUint32` at the offset where four `to_le_bytes` bytes sit returns the written value |
| Utf8.Encode | src/electron_interface.rs:93 | the UTF-8 encoding is at least as long as the text |
| Utf8.ByteLenOne | src/electron_interface.rs:403 | a string's byte length is 1 exactly when it is one ASCII character |
| Utf8.Decode | src/rdp_session.rs:141 | `from_utf8_lossy` yields at most one character per byte |
| Utf8.DecodeEncode | src/electron_interface.rs:93 | decoding the UTF-8 encoding of a text gives back exactly that text |
| Utf8.EncodeStartsWithBom | electron/renderer.js:83-84 | an encoded text begins with the byte-order mark EF BB BF exactly when its first character is U+FEFF |
| Utf8.TextDecodeEncode | electron/renderer.js:83-84 | a default `TextDecoder` reading UTF-8 bytes gives back the encoded text, less a leading U+FEFF |
| Text.Split | src/main.rs:216 | `split(':')` yields at least one piece, and no piece contains the separator |
| Text.JoinSplit | src/main.rs:216 | joining the pieces of `split` with the separator restores the input |
| Text.SplitJoin | src/main.rs:216 | splitting a join of separator-free pieces restores the pieces |
| Text.SplitWhitespace | src/rdp_session.rs:146 | `split_whitespace` yields non-empty fields free of white space |
| Text.SplitWhitespaceSep | src/rdp_session.rs:146 | a white-space character splits the text into the fields before it followed by the fields after it |
| Text.SplitWhitespaceWord | src/rdp_session.rs:146 | a non-empty run without white space is exactly one field, itself |
| Text.SplitWhitespaceBlank | src/rdp_session.rs:146 | there are no fields exactly when the text is all white space |
| Text.LinesUnlines | src/rdp_session.rs:145 | `lines()` over newline-terminated lines returns exactly those lines |
| Text.ParseInt | src/main.rs:222-233 | `FromStr` accepts exactly one or more digits, optionally after '+' (or '-' for a signed type), and returns their value, negated after '-', when it lies in the type's range |
| Text.ParseDecimal | src/main.rs:222-233 | `parse` reads back every in-range integer written in decimal |
| Json.LastValue | electron/renderer.js:87-116 | `msg[key]` is defined exactly when some member has that name, and it is the last such member |
| Json.JsNumber | electron/renderer.js:199-200 | `JSON.stringify` writes a number as an integer exactly when it is integral and below 1e21 in magnitude |
| Json.DistinctValues | src/electron_interface.rs:60-68 | in an object without repeated names each member name has exactly its own value |
| Frame.SwapSourceInvolution | src/electron_interface.rs:174-176 | the byte permutation of the red/blue swap is its own inverse |
| Frame.SwapRB | src/electron_interface.rs:174-176 | every byte of the result comes from its swap partner: bytes 0 and 2 of each whole pixel trade places, and all other bytes, including a trailing partial pixel, stay put |
| Frame.SwapRBInvolution | src/electron_interface.rs:174-176 | swapping twice restores the buffer |
| Frame.VideoMessage | src/electron_interface.rs:178-182 | a frame is tag 0 followed by the pixels at offset 9, with no length field, and is 9 bytes longer than the pixels |
| Frame.OnRgba | src/electron_interface.rs:166-182 | `on_rgba` leaves the caller's buffer swapped and frames those swapped bytes with the dimensions cut to `u32` |
| Frame.OnRgbaTwice | src/electron_interface.rs:174-182 | handing the same image to `on_rgba` twice sends the original byte order the second time and restores the image |
| Frame.ControlMessage | src/electron_interface.rs:92-94 | a control message is tag 1 followed by the UTF-8 bytes of the JSON text, with no length prefix |
| Frame.CursorDataJson | src/electron_interface.rs:60-68 | the cursor object carries each field once, with the cursor's own value and the base64 text |
| Frame.CursorPositionJson | src/electron_interface.rs:100-104 | the position object carries type `cursor_position` and the coordinates once each |
| Input.TagOf | src/electron_interface.rs:40-41 | a variant is selected only by a single string `"type"` member |
| Input.I32Field | src/electron_interface.rs:44-50 | an integer field is accepted only from a single JSON integer member that fits `i32` |
| Input.StringField | src/electron_interface.rs:46-54 | a string field is accepted only from a single JSON string member |
| Input.ParseEvent | src/electron_interface.rs:40-55 | a decoded event is carried by the object: `"type"` and every field serde reads for the variant appear exactly once with the event's values, and its integers fit `i32` |
| Input.ParseEventIff | src/electron_interface.rs:40-55 | an object decodes to an event exactly when it carries that event's fields once each and they fit `i32` |
| Input.ParseEventJson | src/electron_interface.rs:40-55 | the canonical object of an event decodes back to the same event exactly when its integers fit `i32` |
| Input.ParseFromValues | src/electron_interface.rs:40-55 | any object carrying an event's fields once each decodes to that event, whatever else it holds, and is refused when a field does not fit |
| Input.ParseIgnoresUnknown | src/electron_interface.rs:40-55 | members no field reads do not change the decoded event |
| Input.MaskRoundTrip | src/electron_interface.rs:346-356 | shifting the button left by 3 and or-ing in the action keeps both parts recoverable when the constants fit the layout |
| Input.TableKeyIff | src/electron_interface.rs:382-401 | the key table is a bijection between its 19 lower-case names and the non-function control keys |
| Input.FunctionKey | src/electron_interface.rs:407-428 | an F-key is chosen only for a capital 'F' followed by text that parses as an `i32` from 1 to 12 |
| Input.TranslateKey | src/electron_interface.rs:374-442 | a sent key event has `press == down`, Legacy mode, and either a control key or a non-zero character |
| Input.TableKeyAnyCase | src/electron_interface.rs:381-401 | a table name is recognised in any letter case |
| Input.SingleAsciiKey | src/electron_interface.rs:403-406 | one ASCII character is sent as its code, except NUL, which counts as nothing set |
| Input.SingleNonAsciiKey | src/electron_interface.rs:403 | one non-ASCII character is longer than one byte and is dropped |
| Input.FunctionKeys | src/electron_interface.rs:407-425 | "F1" to "F12" select F1 to F12 |
| Input.FunctionKeyName | src/electron_interface.rs:381-428 | "F" followed by an `i32` in decimal is never a table name, is longer than one byte, and selects F(n) exactly when n is 1 to 12 |
| Input.FunctionKeyOutOfRange | src/electron_interface.rs:407-431 | "F" followed by any `i32` outside 1 to 12 (such as "F13" or "F0") sends nothing |
| Input.LowerCaseFunctionKey | src/electron_interface.rs:381-431 | the F-key fallback is case-sensitive: "f" followed by anything (such as "f5") sends nothing |
| Input.EnterAnyCase | src/electron_interface.rs:381-387 | "Enter" and "ENTER" both send Return |
| Input.KeySentIff | src/electron_interface.rs:435-441 | a key event is sent exactly when the lower-cased key is a table name, the key is one non-NUL ASCII character, or it is an F-key name |
| Input.TranslateEvent | src/electron_interface.rs:334-371 | pointer events always yield one mouse message with x and y unchanged; move has mask 0; wheel carries `MOUSE_TYPE_WHEEL` and the deltas; keys yield a key event whose `press` is true for keydown, or nothing |
| Input.PressMaskParts | src/electron_interface.rs:339-358 | a press or release carries the button code (left, right, 4 for middle, 0 otherwise) in the upper bits of its mask and its own action in the low three |
| Adapter.Send | src/electron_interface.rs:289-293 | with no channel bound, sending changes nothing; with one bound, it appends exactly the item |
| Adapter.Attach | src/cli.rs:134-135 | the engine installs an empty channel in the slot |
| Adapter.HandleInputEvent | src/electron_interface.rs:278-372 | one event adds at most one item to a bound channel, and exactly one when it translates |
| Adapter.HandleAllQueue | src/electron_interface.rs:278-372 | while unbound every event is lost; once bound the channel gets the events' translations in arrival order |
| Adapter.PointerAlwaysSent | src/electron_interface.rs:334-362 | every pointer event puts its translation on a bound channel |
| Relay.Start | src/electron_interface.rs:223-230 | a bind failure is returned to the caller; otherwise the server listens with an empty channel and the caller's slot |
| Relay.BindAddress | src/electron_interface.rs:224 | the bound address is the loopback host, a colon and the port's digits, which parse back to the port |
| Relay.StepPreservesInv | src/electron_interface.rs:232-272 | every step keeps the invariant: each produced message is either sent once, in order, or still queued, and sends go to connections in accept order |
| Relay.InboundKeepsTraffic | src/electron_interface.rs:247-266 | an inbound message never touches the channel, the send record or the connection count; at most it ends the connection |
| Relay.RunPreservesInv | src/electron_interface.rs:232-272 | any trace keeps the invariant |
| Relay.OutboundFifo | src/electron_interface.rs:239-246 | the head of the channel is the next message sent, on the current connection, and a send error ends the connection |
| Relay.FailedSendLosesMessage | src/electron_interface.rs:239-246 | a message whose send failed is consumed and not retried on the next connection |
| Relay.BadTextKeepsConnection | src/electron_interface.rs:249-255 | text that does not decode to an event is counted, and the connection and input slot are unchanged |
| Relay.GoodTextHandled | src/electron_interface.rs:249-252 | text that decodes is handled as that input event, and the connection continues |
| Relay.AcceptOutcomes | src/electron_interface.rs:232-270 | a failed handshake keeps listening, a handshake opens the next connection, and a failed accept ends the loop |
| Relay.StoppedForever | src/electron_interface.rs:232 | once the accept loop has ended, nothing is accepted or sent again |
| Relay.RunFromStart | src/electron_interface.rs:223-276 | from a fresh start, the sent messages followed by the queued ones are exactly the produced ones, and sends go to connections in accept order |
| Renderer.DecodeMessage | electron/renderer.js:36-84 | a tag-0 message yields the width and height from bytes 1-8, little-endian, and the pixels from offset 9; tag 1 yields the text as a default `TextDecoder` reads it, without a leading byte-order mark; other tags are ignored; a short tag-0 message throws |
| Renderer.ImageDataLen | electron/renderer.js:59-102 | `createImageData` throws on a zero dimension or one outside the `long` range, and otherwise has `|w|*|h|*4` bytes |
| Renderer.ApplyVideo | electron/renderer.js:46-80 | the video size is recorded and a canvas of another size is resized first, which clears it; a dimension above 2^31-1 leaves the default 300 or 150 in the canvas; the frame is drawn only when `createImageData` succeeds and the byte count equals `w*h*4` |
| Renderer.CanvasDim | electron/renderer.js:50-51 | assigning a canvas dimension stores it exactly when it is at most 2^31-1, and the default otherwise |
| Renderer.OversizedFrameClears | electron/renderer.js:48-59 | a frame wider or taller than 2^31-1 is never drawn and always leaves the canvas blank |
| Renderer.ApplyControl | electron/renderer.js:85-135 | a control message never touches the video or canvas, and only a `cursor_data` object can change the cursor |
| Renderer.OnMessage | electron/renderer.js:36-137 | empty, short and unknown-tag messages change nothing; a control message leaves the canvas alone |
| Renderer.ButtonName | electron/renderer.js:171-173 | button 1 is "middle", button 2 is "right", and every other button is "left" |
| Renderer.SendInput | electron/renderer.js:140-144 | input goes out only while the socket is OPEN |
| Bridge.VideoRoundTrip | electron/renderer.js:40-58 | the renderer reads back exactly the width, height and pixels the bridge framed |
| Bridge.ControlRoundTrip | electron/renderer.js:82-84 | the renderer reads back the control text the bridge framed, less a leading U+FEFF, which `TextDecoder` takes for a byte-order mark |
| Bridge.ObjectTextRoundTrip | src/electron_interface.rs:72-94 | the JSON text of an object, which starts with `{`, reaches the renderer unchanged |
| Bridge.FrameDrawnIff | electron/renderer.js:46-80 | an `on_rgba` frame is drawn, with swapped pixels, exactly when its dimensions are non-zero and at most 2^31-1 and the buffer holds `w*h*4` bytes; the canvas takes the frame size, or the default for a dimension above 2^31-1 |
| Bridge.WideFrameWraps | src/electron_interface.rs:180 | a frame 2^32 pixels wide arrives with width 0 and is not drawn |
| Bridge.CursorAppliedIff | electron/renderer.js:87-114 | a bridge cursor replaces the renderer's cursor exactly when its bytes fill `width*height*4` |
| Bridge.CursorPositionApplied | electron/renderer.js:116-131 | a position message records the bridge's coordinates and changes nothing else |
| Bridge.WheelDelta | electron/renderer.js:199-200 | a negated wheel delta reaches the bridge only as an `i32` integer |
| Bridge.UiEventParses | electron/renderer.js:161-225 | what the renderer sends decodes in the bridge exactly when the expected event exists, and then to that event |
| Bridge.WheelParses | electron/renderer.js:196-201 | a wheel event decodes exactly when both negated deltas are `i32` integers, and then carries them |
| Bridge.FractionalWheelDropped | electron/renderer.js:199 | a fractional wheel delta makes the bridge drop the whole event |
| Bridge.RendererButtonNonZero | electron/renderer.js:171-173 | a renderer click never carries button code 0 when the left and right codes are non-zero |
| Bridge.RendererInputReachesEngine | electron/renderer.js:140-144 | an event sent while the socket is open reaches the engine as its translation; otherwise it never leaves the page |
| Rdp.IsRunning | src/rdp_session.rs:190-196 | a session runs exactly when the child has not exited and polling did not fail |
| Rdp.SetCredentials | src/rdp_session.rs:206-210 | setting credentials fills the credential slot and leaves the session slot alone |
| Rdp.SetCredentialsLatestWins | src/rdp_session.rs:206-215 | headless mode is on after a set, a later set overwrites an earlier one, and the mode starts off |
| Rdp.RdpSettings | src/rdp_session.rs:62-108 | the fixed part of the `.rdp` file is 46 settings lines |
| Rdp.RdpContentShape | src/rdp_session.rs:62-112 | the file is a fixed text followed by `username:s:<name>` and a newline, so only the user name varies and the password never appears |
| Rdp.RdpUserLine | src/rdp_session.rs:109 | the user name sits on a line of its own |
| Rdp.RdpContentInjective | src/rdp_session.rs:62-112 | different user names give different files |
| Rdp.RdpTargetsLoopback | src/rdp_session.rs:86 | the file holds the line `full address:s:127.0.0.1` |
| Rdp.LogoffTarget | src/rdp_session.rs:146-150 | a line is selected exactly when its third field is a non-zero `u32` and it mentions "rdp-tcp" or "Disc" anywhere |
| Rdp.TargetsMembers | src/rdp_session.rs:145-156 | an id is selected exactly when some line targets it |
| Rdp.LogoffAll | src/rdp_session.rs:145-156 | one `logoff` is issued per selected line, in order |
| Rdp.DisconnectExisting | src/rdp_session.rs:138-159 | the listing is decoded lossily and every line but the first is considered; nothing happens when the listing command fails |
| Rdp.HeaderNeverSelected | src/rdp_session.rs:145 | the header line is never acted on, whatever it says |
| Rdp.StartSession | src/rdp_session.rs:27-135 | `start` logs off old sessions, stores the credentials for `TERMSRV/127.0.0.1`, writes the file and spawns the client, in that order; only the spawn can fail it |
| Rdp.StartIfNeeded | src/rdp_session.rs:199-249 | with no credentials the call returns false and touches nothing; a running session returns true and starts nothing; otherwise a start is attempted, success fills the slot, and failure propagates with the slot unchanged; when a stale session is replaced, the stop commands of the dropped session follow the spawn, and no client is killed otherwise |
| Rdp.StartTwiceWhileRunning | src/rdp_session.rs:230-235 | two requests spawn nothing if a session runs, and exactly one client when the first spawn succeeds |
| Rdp.Stop | src/rdp_session.rs:162-258 | a filled slot runs `stop` twice, explicitly and when the cleared session is dropped, each time killing the child, deleting `127.0.0.1` credentials and logging off; an empty slot issues nothing; the slot ends empty |
| Rdp.StopKeepsStoredCredentials | src/rdp_session.rs:171-176 | the credential delete of `stop` never names `TERMSRV/127.0.0.1`, the target `start` stores under |
| Rdp.RestartAfterStop | src/rdp_session.rs:223-258 | after a stop, the next request in headless mode spawns a client |
| Rdp.DisplayConnected | src/rdp_session.rs:261-285 | a successful enumeration decides by non-emptiness; otherwise the primary-display query decides |
| Cli.RendererDialsAnotherPort | src/cli.rs:133 | the address `connect_test` has the bridge bind, port 21118, is not the address the renderer dials, port 21121 |
| Cli.ParsePortForward | src/main.rs:215-238 | fewer than three fields, then a bad local port, then a bad remote port each reject the option with their own error; otherwise the id is field 1, the ports are fields 2 and 3, and the host is field 4 or "localhost" |
| Cli.PortForwardRoundTrip | src/main.rs:215-238 | every forward whose id and host have no ':' and whose ports fit `i32` parses back from its option text |
| Cli.PortForwardDefaultHost | src/main.rs:235-238 | with exactly three fields the host is "localhost" |
| Cli.PortForwardExtraFields | src/main.rs:235-238 | the fourth field is the host verbatim, and fields after it are ignored |
| Cli.EmptyPortRejected | src/main.rs:216-227 | "pc::80" is refused for its empty local port, and "pc:80" for too few fields |
| Cli.RdpPairing | src/main.rs:277-281 | credentials are set only when both `--rdp-id` and `--rdp-pw` are given |
| Cli.PairingEnablesIff | src/main.rs:277-281 | headless mode ends up on exactly when both options were given |
| Cli.SessionPassword | src/cli.rs:26-31 | a non-empty key is the password; otherwise a saved peer password leaves it empty; only with neither is the prompt's answer used |
| Cli.PromptOnlyWhenNeeded | src/cli.rs:26-31 | the prompt's answer matters exactly when both key and saved password are empty |
| Cli.Msgbox | src/cli.rs:59-85 | "input-password" sends one login with the session password; "re-input-password" logs, then sends what was typed or logs the failure; other types only log, as an error when the name contains "error" |
| Cli.MsgboxSendsIff | src/cli.rs:59-85 | a login goes out exactly for the two password types (the second only when the prompt worked), never with OS credentials |
| Cli.ErrorTypesOnlyLog | src/cli.rs:78-80 | a type containing "error" is only logged, as an error |
| Cli.FirstLaunch | src/cli.rs:146-163 | the search result is the first candidate that exists and spawns, and none exists exactly when no candidate does both |
| Cli.LaunchClient | src/cli.rs:146-168 | the loop launches the reference result; it attempts only existing candidates, in order, up to the launched one, and never skips one |
| Cli.ClientPreference | src/cli.rs:146-168 | "sdf-client.exe" wins whenever it launches, and failure is reported only when neither name launched |

## Left out

- Sockets, the websocket handshake, `tokio::select!` scheduling and threads. The relay is driven by an event trace; which `select!` branch fires is part of the trace.
- The JSON text grammar, `serde_json`'s text parser, `to_string`, `JSON.parse` and `JSON.stringify`. They are modelled on parsed JSON values. Only the integer-versus-float choice of `JSON.stringify` is modelled (`Json.JsNumber`).
- Input.ParseEvent: serde's positional (array) form of a struct variant is treated as an error rather than decoded.
- base64 (`base64::encode`, `atob`), canvas drawing, `toDataURL` and the DOM. `atob` is a parameter, and a drawn canvas is its pixel bytes.
- Renderer.ApplyControl: a `cursor_data` whose `width` or `height` is not an integral JSON number leaves the cursor unchanged. JavaScript would coerce such a value.
- Floating-point coordinate scaling in the renderer (`getScaledCoordinates`, the cursor-position screen arithmetic). Coordinates arrive already rounded.
- `send_mouse` and the `MOUSE_*` constants live outside this model. The constants are a parameter record, and `send_mouse` is taken as forwarding its mask and coordinates unchanged.
- `handle_hash` (SHA-256 and the login message) and the other no-op `InvokeUiSession` callbacks.
- `io_loop`, the session engine and `start_one_port_forward`.
- The process spawns and shell-outs (`cmdkey`, `mstsc`, `qwinsta`, `logoff`, `sc`) and their outcomes. They become `Rdp.Command` values or oracle inputs. The fixed `sleep`s are left out too.
- Dropping an `RdpSession` is modelled at the two slot writes, in `Rdp.StartIfNeeded` and `Rdp.Stop`. The session slot is a `static`, which is never dropped at exit, so there is no other drop.
- Renderer.ImageDataLen: an allocation failure of `createImageData` for an in-range but very large image is not modelled.
- `get_rdp_credentials()` returning nothing after `is_rdp_mode_enabled()` held is folded away. No code path clears the credential slot.
- Rdp.DisconnectExisting: whether each `logoff` succeeded is not modelled. The source ignores it.
- Cli.SessionPassword: a failed prompt, whose `unwrap` panics, is modelled as no password at all.
- Cli.LaunchClient: the current-executable directory lookup is left out. When it fails, the source skips the search entirely.
- clap argument definitions, service install/start/stop and configuration printing in `main.rs`.
- The Android sources: activities, fragments and JNI declarations with no logic of their own.
