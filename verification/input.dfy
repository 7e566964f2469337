/** The input side of the relay bridge (`src/electron_interface.rs`): the
    JSON input events the UI sends, how serde turns them into `InputEvent`,
    and how `handle_input_event` and `send_key` translate them into the
    engine's mouse and key messages. */
module Input {
  import opened Wrappers
  import opened Json
  import opened Proto
  import opened Text
  import Utf8

  // ---------------------------------------------------------------------
  // InputEvent and its serde decoding

  /** `InputEvent`, a serde enum tagged by its `"type"` member. */
  datatype InputEvent =
    | MouseMove(x: int, y: int)
    | MouseDown(btn: string, x: int, y: int)
    | MouseUp(btn: string, x: int, y: int)
    | Wheel(deltaX: int, deltaY: int)
    | KeyDown(key: string)
    | KeyUp(key: string)

  /** The `"type"` value each variant is renamed to. */
  function TypeName(e: InputEvent): string
  {
    match e
    case MouseMove(_, _) => "mousemove"
    case MouseDown(_, _, _) => "mousedown"
    case MouseUp(_, _, _) => "mouseup"
    case Wheel(_, _) => "wheel"
    case KeyDown(_) => "keydown"
    case KeyUp(_) => "keyup"
  }

  predicate IsI32(n: int)
  {
    I32_MIN <= n <= I32_MAX
  }

  /** Every integer field fits the `i32` it is declared as. */
  predicate WellFormed(e: InputEvent)
  {
    match e
    case MouseMove(x, y) => IsI32(x) && IsI32(y)
    case MouseDown(_, x, y) => IsI32(x) && IsI32(y)
    case MouseUp(_, x, y) => IsI32(x) && IsI32(y)
    case Wheel(dx, dy) => IsI32(dx) && IsI32(dy)
    case KeyDown(_) => true
    case KeyUp(_) => true
  }

  /** Why serde rejected a message. The bridge only logs the fact. */
  datatype ParseError =
    | NotAnObject
    | MissingType
    | DuplicateType
    | UnknownType
    | MissingField(name: string)
    | DuplicateField(name: string)
    | InvalidField(name: string)

  /** The variant named by the object's single `"type"` member. */
  function TagOf(members: seq<(string, Json)>): (r: Result<string, ParseError>)
    ensures r.Ok? ==> ValuesOf(members, "type") == [JStr(r.value)]
  {
    var tags := ValuesOf(members, "type");
    if tags == [] then Err(MissingType)
    else if !tags[0].JStr? then Err(UnknownType)
    else if tags[0].s !in {"mousemove", "mousedown", "mouseup", "wheel", "keydown", "keyup"} then
      Err(UnknownType)
    else if |tags| > 1 then Err(DuplicateType)
    else Ok(tags[0].s)
  }

  /** The single member `name`, as serde fills one struct field. */
  function Field(members: seq<(string, Json)>, name: string): (r: Result<Json, ParseError>)
    ensures r.Ok? ==> ValuesOf(members, name) == [r.value]
  {
    var vs := ValuesOf(members, name);
    if vs == [] then Err(MissingField(name))
    else if |vs| > 1 then Err(DuplicateField(name))
    else Ok(vs[0])
  }

  /** An `i32` field: a JSON integer in range; a fractional or exponent
      number, a string or anything else is refused. */
  function I32Field(members: seq<(string, Json)>, name: string): (r: Result<int, ParseError>)
    ensures r.Ok? ==> IsI32(r.value) && ValuesOf(members, name) == [JInt(r.value)]
  {
    var v :- Field(members, name);
    if v.JInt? && IsI32(v.i) then Ok(v.i) else Err(InvalidField(name))
  }

  /** A `String` field: a JSON string and nothing else. */
  function StringField(members: seq<(string, Json)>, name: string): (r: Result<string, ParseError>)
    ensures r.Ok? ==> ValuesOf(members, name) == [JStr(r.value)]
  {
    var v :- Field(members, name);
    if v.JStr? then Ok(v.s) else Err(InvalidField(name))
  }

  /** `serde_json::from_str::<InputEvent>` after the text has been parsed:
      an object with exactly one `"type"` member naming a variant, and
      exactly one well-typed member for each of that variant's fields.
      Other members are ignored. */
  function ParseEvent(j: Json): (r: Result<InputEvent, ParseError>)
    ensures r.Ok? ==> j.JObj? && Carries(j.members, r.value)
    ensures r.Ok? ==> WellFormed(r.value)
  {
    if !j.JObj? then Err(NotAnObject)
    else
      var ms := j.members;
      var tag :- TagOf(ms);
      if tag == "mousemove" then
        var x :- I32Field(ms, "x");
        var y :- I32Field(ms, "y");
        Ok(MouseMove(x, y))
      else if tag == "mousedown" || tag == "mouseup" then
        var btn :- StringField(ms, "btn");
        var x :- I32Field(ms, "x");
        var y :- I32Field(ms, "y");
        Ok(if tag == "mousedown" then MouseDown(btn, x, y) else MouseUp(btn, x, y))
      else if tag == "wheel" then
        var dx :- I32Field(ms, "delta_x");
        var dy :- I32Field(ms, "delta_y");
        Ok(Wheel(dx, dy))
      else
        var key :- StringField(ms, "key");
        Ok(if tag == "keydown" then KeyDown(key) else KeyUp(key))
  }

  /** The member names serde reads for a variant (besides `"type"`). */
  function FieldNames(e: InputEvent): set<string>
  {
    match e
    case MouseMove(_, _) => {"x", "y"}
    case MouseDown(_, _, _) => {"btn", "x", "y"}
    case MouseUp(_, _, _) => {"btn", "x", "y"}
    case Wheel(_, _) => {"delta_x", "delta_y"}
    case KeyDown(_) => {"key"}
    case KeyUp(_) => {"key"}
  }

  /** The canonical JSON object of an event, as a sender would write it. */
  function EventJson(e: InputEvent): (j: Json)
    ensures j.JObj? && |j.members| >= 2
  {
    var t := ("type", JStr(TypeName(e)));
    match e
    case MouseMove(x, y) => JObj([t, ("x", JInt(x)), ("y", JInt(y))])
    case MouseDown(b, x, y) => JObj([t, ("btn", JStr(b)), ("x", JInt(x)), ("y", JInt(y))])
    case MouseUp(b, x, y) => JObj([t, ("btn", JStr(b)), ("x", JInt(x)), ("y", JInt(y))])
    case Wheel(dx, dy) => JObj([t, ("delta_x", JInt(dx)), ("delta_y", JInt(dy))])
    case KeyDown(k) => JObj([t, ("key", JStr(k))])
    case KeyUp(k) => JObj([t, ("key", JStr(k))])
  }

  /** Decoding the canonical object of an event gives the event back
      exactly when its integers fit `i32`: the decoder loses nothing the
      sender put in, and refuses what it cannot represent. */
  lemma ParseEventJson(e: InputEvent)
    ensures ParseEvent(EventJson(e)).Ok? <==> WellFormed(e)
    ensures WellFormed(e) ==> ParseEvent(EventJson(e)) == Ok(e)
  {
    CanonicalCarries(e);
    ParseFromValues(EventJson(e).members, e);
  }

  /** The members serde reads for `e` are each present once, with `e`'s
      values. */
  predicate Carries(ms: seq<(string, Json)>, e: InputEvent)
  {
    && ValuesOf(ms, "type") == [JStr(TypeName(e))]
    && match e
       case MouseMove(x, y) => ValuesOf(ms, "x") == [JInt(x)] && ValuesOf(ms, "y") == [JInt(y)]
       case MouseDown(b, x, y) =>
         ValuesOf(ms, "btn") == [JStr(b)] && ValuesOf(ms, "x") == [JInt(x)] && ValuesOf(ms, "y") == [JInt(y)]
       case MouseUp(b, x, y) =>
         ValuesOf(ms, "btn") == [JStr(b)] && ValuesOf(ms, "x") == [JInt(x)] && ValuesOf(ms, "y") == [JInt(y)]
       case Wheel(dx, dy) => ValuesOf(ms, "delta_x") == [JInt(dx)] && ValuesOf(ms, "delta_y") == [JInt(dy)]
       case KeyDown(k) => ValuesOf(ms, "key") == [JStr(k)]
       case KeyUp(k) => ValuesOf(ms, "key") == [JStr(k)]
  }

  lemma CanonicalCarries(e: InputEvent)
    ensures Carries(EventJson(e).members, e)
  {
    var ms := EventJson(e).members;
    assert DistinctNames(ms);
    DistinctValues(ms);
    assert ms[0] == ("type", JStr(TypeName(e)));
    match e
    case MouseMove(x, y) =>
      assert ms[1] == ("x", JInt(x)) && ms[2] == ("y", JInt(y));
    case MouseDown(b, x, y) =>
      assert ms[1] == ("btn", JStr(b)) && ms[2] == ("x", JInt(x)) && ms[3] == ("y", JInt(y));
    case MouseUp(b, x, y) =>
      assert ms[1] == ("btn", JStr(b)) && ms[2] == ("x", JInt(x)) && ms[3] == ("y", JInt(y));
    case Wheel(dx, dy) =>
      assert ms[1] == ("delta_x", JInt(dx)) && ms[2] == ("delta_y", JInt(dy));
    case KeyDown(k) =>
      assert ms[1] == ("key", JStr(k));
    case KeyUp(k) =>
      assert ms[1] == ("key", JStr(k));
  }

  /** Whatever else an object holds, it decodes to `e` when the members
      serde reads are those of `e` and they fit, and is refused when they
      do not fit. */
  lemma ParseFromValues(ms: seq<(string, Json)>, e: InputEvent)
    requires Carries(ms, e)
    ensures ParseEvent(JObj(ms)).Ok? <==> WellFormed(e)
    ensures WellFormed(e) ==> ParseEvent(JObj(ms)) == Ok(e)
  {
  }

  /** An object decodes to `e` exactly when the members serde reads are
      those of `e`, each once, and they fit. */
  lemma ParseEventIff(ms: seq<(string, Json)>, e: InputEvent)
    ensures ParseEvent(JObj(ms)) == Ok(e) <==> Carries(ms, e) && WellFormed(e)
  {
    if Carries(ms, e) {
      ParseFromValues(ms, e);
    }
  }

  /** Members that no field of the variant reads do not change the result
      when appended to the object. */
  lemma {:induction false} ParseIgnoresUnknown(e: InputEvent, extra: seq<(string, Json)>)
    requires WellFormed(e)
    requires forall i :: 0 <= i < |extra| ==> extra[i].0 !in FieldNames(e) && extra[i].0 != "type"
    ensures ParseEvent(JObj(EventJson(e).members + extra)) == Ok(e)
  {
    var ms := EventJson(e).members;
    CanonicalCarries(e);
    forall name | name in FieldNames(e) || name == "type"
      ensures ValuesOf(ms + extra, name) == ValuesOf(ms, name)
    {
      ValuesOfAppendAbsent(ms, extra, name);
    }
    assert Carries(ms + extra, e);
    ParseFromValues(ms + extra, e);
  }

  // ---------------------------------------------------------------------
  // Pointer events

  /** The button name to button code table of `handle_input_event`. */
  function ButtonCode(codes: MouseCodes, btn: string): bv32
  {
    if btn == "left" then codes.buttonLeft
    else if btn == "right" then codes.buttonRight
    else if btn == "middle" then 4
    else 0
  }

  /** `(button << 3) | action`. */
  function PressMask(button: bv32, action: bv32): bv32
  {
    (button << 3) | action
  }

  /** The two halves of a mouse mask, as the engine reads them back. */
  function MaskButton(mask: bv32): bv32
  {
    mask >> 3
  }

  function MaskAction(mask: bv32): bv32
  {
    mask & 7
  }

  /** The engine constants are small enough for the mask layout: button
      codes fit in 29 bits and action codes in 3. */
  predicate CodesFit(codes: MouseCodes)
  {
    && codes.buttonLeft < 0x2000_0000 && codes.buttonRight < 0x2000_0000
    && codes.typeDown < 8 && codes.typeUp < 8 && codes.typeWheel < 8
  }

  /** A mask keeps both of its parts: the button and the action can be read
      back from it. */
  lemma MaskRoundTrip(button: bv32, action: bv32)
    requires button < 0x2000_0000 && action < 8
    ensures MaskButton(PressMask(button, action)) == button
    ensures MaskAction(PressMask(button, action)) == action
  {
  }

  // ---------------------------------------------------------------------
  // Key events

  /** The fixed table of `send_key`, matched against the lowercased key. */
  function TableKey(name: string): Option<ControlKey>
  {
    match name
    case "control" => Some(Control)
    case "shift" => Some(Shift)
    case "alt" => Some(Alt)
    case "meta" => Some(Meta)
    case "enter" => Some(Return)
    case "backspace" => Some(Backspace)
    case "tab" => Some(Tab)
    case "escape" => Some(Escape)
    case "arrowup" => Some(UpArrow)
    case "arrowdown" => Some(DownArrow)
    case "arrowleft" => Some(LeftArrow)
    case "arrowright" => Some(RightArrow)
    case "home" => Some(Home)
    case "end" => Some(End)
    case "pageup" => Some(PageUp)
    case "pagedown" => Some(PageDown)
    case "insert" => Some(Insert)
    case "delete" => Some(Delete)
    case "capslock" => Some(CapsLock)
    case _ => None
  }

  /** The table read the other way: the one name that selects a key; the
      function keys have none. */
  function TableName(k: ControlKey): Option<string>
  {
    match k
    case Control => Some("control")
    case Shift => Some("shift")
    case Alt => Some("alt")
    case Meta => Some("meta")
    case Return => Some("enter")
    case Backspace => Some("backspace")
    case Tab => Some("tab")
    case Escape => Some("escape")
    case UpArrow => Some("arrowup")
    case DownArrow => Some("arrowdown")
    case LeftArrow => Some("arrowleft")
    case RightArrow => Some("arrowright")
    case Home => Some("home")
    case End => Some("end")
    case PageUp => Some("pageup")
    case PageDown => Some("pagedown")
    case Insert => Some("insert")
    case Delete => Some("delete")
    case CapsLock => Some("capslock")
    case F(_) => None
  }

  /** The table is a bijection between its 19 names and the non-function
      control keys. */
  lemma TableKeyIff(name: string, k: ControlKey)
    ensures TableKey(name) == Some(k) <==> TableName(k) == Some(name)
  {
  }

  /** The `F1`..`F12` fallback: an upper-case 'F' followed by text that
      `parse::<i32>` reads as 1..=12. */
  function FunctionKey(key: string): (r: Option<ControlKey>)
    ensures r.Some? ==> r.value.F? && 1 <= r.value.n <= 12
    ensures r.Some? ==> |key| >= 2 && key[0] == 'F' && ParseI32(key[1..]) == Some(r.value.n)
  {
    if StartsWith(key, "F") && |Utf8.Encode(key)| > 1 then
      match ParseI32(key[1..])
      case Some(n) => if 1 <= n <= 12 then Some(F(n)) else None
      case None => None
    else None
  }

  /** Which alternative of the key event `send_key` sets. */
  function KeyUnionOf(key: string): KeyUnion
  {
    match TableKey(Lower(key))
    case Some(k) => ControlKeyOf(k)
    case None => FallbackUnion(key)
  }

  /** The branch for keys outside the table, which looks at the key as
      typed: one byte is a character, otherwise an F-key name or nothing. */
  function FallbackUnion(key: string): KeyUnion
  {
    if |Utf8.Encode(key)| == 1 then Chr(key[0] as int)
    else
      match FunctionKey(key)
      case Some(k) => ControlKeyOf(k)
      case None => NoKey
  }

  /** Outside the table something is set exactly for one non-NUL ASCII
      character or an F-key name. */
  lemma FallbackSetsIff(key: string)
    ensures FallbackUnion(key).ControlKeyOf? || (FallbackUnion(key).Chr? && FallbackUnion(key).code != 0)
      <==> (|key| == 1 && 0 < (key[0] as int) < 0x80) || FunctionKey(key).Some?
  {
    Utf8.ByteLenOne(key);
  }

  /** `send_key`: the key event it sends, or `None` when it only logs an
      unknown-key warning. */
  function TranslateKey(key: string, down: bool): (r: Option<KeyEvent>)
    ensures r.Some? ==> r.value.press == down && r.value.mode == Legacy
    ensures r.Some? ==> r.value.HasControlKey() || r.value.ChrValue() != 0
  {
    var ev := KeyEvent(down, Legacy, KeyUnionOf(key));
    if ev.HasControlKey() || ev.ChrValue() != 0 then Some(ev) else None
  }

  /** A table key is recognised whatever its letter case. */
  lemma TableKeyAnyCase(key: string, k: ControlKey, down: bool)
    requires TableName(k) == Some(Lower(key))
    ensures TranslateKey(key, down) == Some(KeyEvent(down, Legacy, ControlKeyOf(k)))
  {
    TableKeyIff(Lower(key), k);
  }

  /** A single ASCII character is sent as its own code, except NUL, whose
      code 0 counts as "nothing set". */
  lemma SingleAsciiKey(c: char, down: bool)
    requires (c as int) < 0x80
    ensures TranslateKey([c], down)
      == if c == '\0' then None else Some(KeyEvent(down, Legacy, Chr(c as int)))
  {
    assert |Lower([c])| == 1;
    assert TableKey(Lower([c])) == None;
    Utf8.ByteLenOne([c]);
  }

  /** A single non-ASCII character is longer than one byte, so it is
      dropped: the byte-length test, not a character count, decides. */
  lemma SingleNonAsciiKey(c: char, down: bool)
    requires (c as int) >= 0x80
    ensures TranslateKey([c], down) == None
  {
    assert |Lower([c])| == 1;
    assert TableKey(Lower([c])) == None;
    Utf8.ByteLenOne([c]);
    assert !StartsWith([c], "F");
  }

  /** "F1".."F12" select the function keys. */
  lemma FunctionKeys(n: int, down: bool)
    requires 1 <= n <= 12
    ensures TranslateKey("F" + DecimalString(n), down) == Some(KeyEvent(down, Legacy, ControlKeyOf(F(n))))
  {
    FunctionKeyName(n);
  }

  /** "F" followed by an `i32` in decimal misses the table and reaches the
      F-key test with that number. */
  lemma FunctionKeyName(n: int)
    requires I32_MIN <= n <= I32_MAX
    ensures var key := "F" + DecimalString(n);
      && KeyUnionOf(key) == FallbackUnion(key) && |Utf8.Encode(key)| > 1
      && FunctionKey(key) == if 1 <= n <= 12 then Some(F(n)) else None
  {
    var key := "F" + DecimalString(n);
    assert Lower(key)[0] == 'f';
    TableKeyNotF(Lower(key));
    assert key[1..] == DecimalString(n);
    ParseDecimal(n, true, I32_MIN, I32_MAX);
    assert |Utf8.Encode(key)| >= |key| >= 2;
  }

  /** No name of the table starts with 'f'. */
  lemma TableKeyNotF(name: string)
    requires |name| >= 1 && name[0] == 'f'
    ensures TableKey(name) == None
  {
  }

  /** An 'F' followed by a number outside 1..=12 falls through to
      "nothing set": no event is sent. */
  lemma FunctionKeyOutOfRange(n: int, down: bool)
    requires I32_MIN <= n <= I32_MAX && (n < 1 || n > 12)
    ensures TranslateKey("F" + DecimalString(n), down) == None
  {
    FunctionKeyName(n);
  }

  /** The F-key fallback is case-sensitive: a lower-case 'f' followed by
      anything sends nothing. */
  lemma LowerCaseFunctionKey(rest: string, down: bool)
    requires |rest| >= 1
    ensures TranslateKey("f" + rest, down) == None
  {
    var key := "f" + rest;
    assert Lower(key)[0] == 'f';
    TableKeyNotF(Lower(key));
    assert |Utf8.Encode(key)| >= |key| >= 2;
    assert !StartsWith(key, "F");
  }

  /** For example, "Enter" and "ENTER" both send Return. */
  lemma EnterAnyCase(down: bool)
    ensures TranslateKey("Enter", down) == Some(KeyEvent(down, Legacy, ControlKeyOf(Return)))
    ensures TranslateKey("ENTER", down) == Some(KeyEvent(down, Legacy, ControlKeyOf(Return)))
  {
    assert Lower("Enter") == "enter";
    TableKeyAnyCase("Enter", Return, down);
    assert Lower("ENTER") == "enter";
    TableKeyAnyCase("ENTER", Return, down);
  }

  /** When `send_key` sends: exactly when the lowercased key is a table
      name, the key is one non-NUL ASCII character, or it is an F-key name. */
  lemma KeySentIff(key: string, down: bool)
    ensures TranslateKey(key, down).Some? <==>
      || TableKey(Lower(key)).Some?
      || (|key| == 1 && 0 < (key[0] as int) < 0x80)
      || FunctionKey(key).Some?
  {
    FallbackSetsIff(key);
  }

  // ---------------------------------------------------------------------
  // handle_input_event

  /** `handle_input_event`: the one message an event produces for the
      engine, or `None` for a key that maps to nothing. */
  function TranslateEvent(codes: MouseCodes, e: InputEvent): (r: Option<Data>)
    ensures !(e.KeyDown? || e.KeyUp?) ==> r.Some? && r.value.MouseData?
    ensures (e.KeyDown? || e.KeyUp?) ==> r.None? || (r.value.KeyData? && r.value.event.press == e.KeyDown?)
    ensures (e.MouseMove? || e.MouseDown? || e.MouseUp?) ==> r.value.x == e.x && r.value.y == e.y
    ensures e.Wheel? ==> r.value == MouseData(codes.typeWheel, e.deltaX, e.deltaY)
    ensures e.MouseMove? ==> r.value.mask == 0
  {
    match e
    case MouseMove(x, y) => Some(MouseData(0, x, y))
    case MouseDown(btn, x, y) => Some(MouseData(PressMask(ButtonCode(codes, btn), codes.typeDown), x, y))
    case MouseUp(btn, x, y) => Some(MouseData(PressMask(ButtonCode(codes, btn), codes.typeUp), x, y))
    case Wheel(dx, dy) => Some(MouseData(codes.typeWheel, dx, dy))
    case KeyDown(key) =>
      (match TranslateKey(key, true) case Some(ev) => Some(KeyData(ev)) case None => None)
    case KeyUp(key) =>
      (match TranslateKey(key, false) case Some(ev) => Some(KeyData(ev)) case None => None)
  }

  /** A press or release carries the button code in the upper bits of its
      mask and the action in the low three. */
  lemma PressMaskParts(codes: MouseCodes, e: InputEvent)
    requires CodesFit(codes) && (e.MouseDown? || e.MouseUp?)
    ensures MaskButton(TranslateEvent(codes, e).value.mask) == ButtonCode(codes, e.btn)
    ensures MaskAction(TranslateEvent(codes, e).value.mask) == if e.MouseDown? then codes.typeDown else codes.typeUp
  {
    MaskRoundTrip(ButtonCode(codes, e.btn), if e.MouseDown? then codes.typeDown else codes.typeUp);
  }
}
