/** The remote-control messages the bridge hands to the session engine.
    They are protobuf types of the engine, whose definitions are not part of
    this model; only the fields the bridge sets are represented. */
module Proto {

  /** The named keys of the remote-control protocol that the bridge uses;
      `F(n)` stands for F1..F12. */
  datatype ControlKey =
    | Control | Shift | Alt | Meta | Return | Backspace | Tab | Escape
    | UpArrow | DownArrow | LeftArrow | RightArrow | Home | End
    | PageUp | PageDown | Insert | Delete | CapsLock
    | F(n: int)

  datatype KeyboardMode = Legacy | Map | Translate | Auto

  /** The `union` of a key event: which of its alternatives is set. */
  datatype KeyUnion = NoKey | ControlKeyOf(key: ControlKey) | Chr(code: int)

  datatype KeyEvent = KeyEvent(press: bool, mode: KeyboardMode, union: KeyUnion)
  {
    /** `KeyEvent::has_control_key`. */
    predicate HasControlKey()
    {
      union.ControlKeyOf?
    }

    /** `KeyEvent::chr`: the character code, 0 when another alternative is set. */
    function ChrValue(): int
    {
      if union.Chr? then union.code else 0
    }
  }

  /** What travels through the engine's input channel (`Data`): a mouse
      event built by `send_mouse`, a key event, or a login reply. */
  datatype Data =
    | MouseData(mask: bv32, x: int, y: int)
    | KeyData(event: KeyEvent)
    | Login(osUsername: string, osPassword: string, password: string, remember: bool)

  /** The engine's `MOUSE_BUTTON_*` and `MOUSE_TYPE_*` constants (`i32`),
      whose values live outside this model. */
  datatype MouseCodes = MouseCodes(
    buttonLeft: bv32,
    buttonRight: bv32,
    typeDown: bv32,
    typeUp: bv32,
    typeWheel: bv32)
}
