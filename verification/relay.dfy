/** The websocket relay of `start_electron_server`
    (`src/electron_interface.rs`) as a state machine over a trace of
    events. Sockets, the handshake and the scheduling choices of
    `tokio::select!` are not modelled: the trace says which branch fired
    and what the network reported. */
module Relay {
  import opened Wrappers
  import opened Json
  import opened Proto
  import Input
  import opened Adapter
  import opened Bytes
  import Text

  /** What `ws_stream.next()` yields. A text message carries the outcome
      of parsing its JSON text (`None`: not JSON at all). */
  datatype WsMessage =
    | Text(parsed: Option<Json>)
    | Binary(bytes: seq<byte>)
    | Ping
    | Pong
    | CloseFrame
    | StreamError
    | EndOfStream

  datatype Event =
      /** The engine hands a framed message to the outbound channel
          (`on_rgba`, `set_cursor_data`, `set_cursor_position`). */
    | Produce(data: seq<byte>)
      /** The session engine installs its input channel in the shared slot. */
    | EngineAttached
      /** `listener.accept()` failed. */
    | AcceptFailed
      /** A connection was accepted; `handshakeOk` is the outcome of
          `accept_async`. */
    | Accepted(handshakeOk: bool)
      /** The outbound branch of `select!` fired; `sendOk` is the outcome of
          `ws_stream.send`. */
    | SelectOutbound(sendOk: bool)
      /** The inbound branch of `select!` fired with `msg`. */
    | SelectInbound(msg: WsMessage)

  /** `Listening`: waiting in `accept`. `Streaming(conn)`: inside the
      `select!` loop of connection number `conn`. `Stopped`: the accept
      loop ended and the spawned tokio task, with the channel's receiver, is gone. */
  datatype Phase = Listening | Streaming(conn: nat) | Stopped

  /** One attempt to send an outbound message as a binary frame. */
  datatype Delivery = Delivery(conn: nat, data: seq<byte>, ok: bool)

  datatype Server = Server(
    phase: Phase,
    /** Connections whose handshake succeeded so far. */
    accepted: nat,
    /** Messages waiting in the unbounded outbound channel. */
    queue: seq<seq<byte>>,
    /** Every message the channel took, in order. */
    produced: seq<seq<byte>>,
    /** Every send attempt, in order. */
    sent: seq<Delivery>,
    /** The shared input slot handed in by the caller. */
    slot: SenderSlot,
    /** Text messages that did not decode to an `InputEvent`. */
    parseFailures: nat,
    codes: MouseCodes)

  /** The payloads of a list of send attempts. */
  function Payloads(ds: seq<Delivery>): (r: seq<seq<byte>>)
    ensures |r| == |ds|
    ensures forall i :: 0 <= i < |ds| ==> r[i] == ds[i].data
  {
    if ds == [] then [] else [ds[0].data] + Payloads(ds[1..])
  }

  lemma {:induction false} PayloadsAppend(ds: seq<Delivery>, d: Delivery)
    ensures Payloads(ds + [d]) == Payloads(ds) + [d.data]
  {
  }

  /** What the relay keeps true along every trace: every message the
      channel took was either attempted exactly once, in order, or is still
      queued; attempts go to connections in the order they were accepted;
      and only the newest connection can be streaming. */
  ghost predicate Inv(s: Server)
  {
    && Payloads(s.sent) + s.queue == s.produced
    && (forall i :: 0 <= i < |s.sent| ==> s.sent[i].conn < s.accepted)
    && (forall i, j :: 0 <= i < j < |s.sent| ==> s.sent[i].conn <= s.sent[j].conn)
    && (s.phase.Streaming? ==> s.phase.conn + 1 == s.accepted)
  }

  datatype BindError = BindError

  const LOOPBACK: string := "127.0.0.1"

  /** The address `start_electron_server` binds, `127.0.0.1:<port>`: the
      loopback host, a colon, and the port's decimal digits, which parse
      back to the port. */
  function BindAddress(port: nat): (r: string)
    ensures |r| > |LOOPBACK| + 1 && r[..|LOOPBACK|] == LOOPBACK && r[|LOOPBACK|] == ':'
    ensures Text.ParseInt(r[|LOOPBACK| + 1..], false, 0, port) == Some(port)
  {
    var r := LOOPBACK + ":" + Text.NatDigits(port);
    assert r[|LOOPBACK| + 1..] == Text.NatDigits(port);
    r
  }

  /** `start_electron_server` up to the spawn: binding `127.0.0.1:port`
      fails with the error returned to the caller, or the server starts
      listening with an empty channel and the caller's slot. */
  function Start(bindOk: bool, slot: SenderSlot, codes: MouseCodes): (r: Result<Server, BindError>)
    ensures r.Ok? <==> bindOk
    ensures r.Ok? ==> Inv(r.value) && r.value.phase == Listening && r.value.queue == []
    ensures r.Ok? ==> r.value.slot == slot && r.value.sent == [] && r.value.accepted == 0
  {
    if !bindOk then Err(BindError)
    else Ok(Server(Listening, 0, [], [], [], slot, 0, codes))
  }

  /** One event. An event whose branch cannot fire in the current phase
      (an inbound message while listening, an outbound send with nothing
      queued) leaves the server as it is. */
  function Step(s: Server, e: Event): Server
  {
    match e
    case Produce(data) =>
      if s.phase.Stopped? then s
      else s.(queue := s.queue + [data], produced := s.produced + [data])
    case EngineAttached => s.(slot := Attach(s.slot))
    case AcceptFailed =>
      if s.phase.Listening? then s.(phase := Stopped) else s
    case Accepted(ok) =>
      if s.phase.Listening? && ok then s.(phase := Streaming(s.accepted), accepted := s.accepted + 1)
      else s
    case SelectOutbound(ok) =>
      if s.phase.Streaming? && s.queue != [] then
        var d := Delivery(s.phase.conn, s.queue[0], ok);
        s.(queue := s.queue[1..], sent := s.sent + [d],
           phase := if ok then s.phase else Listening)
      else s
    case SelectInbound(msg) =>
      if !s.phase.Streaming? then s
      else
        match msg
        case Text(parsed) =>
          var ev := if parsed.Some? then Input.ParseEvent(parsed.value) else Err(Input.NotAnObject);
          if ev.Ok? then s.(slot := HandleInputEvent(s.slot, s.codes, ev.value))
          else s.(parseFailures := s.parseFailures + 1)
        case CloseFrame => s.(phase := Listening)
        case StreamError => s.(phase := Listening)
        case EndOfStream => s.(phase := Listening)
        case _ => s
  }

  function Run(s: Server, es: seq<Event>): Server
    decreases |es|
  {
    if es == [] then s else Run(Step(s, es[0]), es[1..])
  }

  lemma StepPreservesInv(s: Server, e: Event)
    requires Inv(s)
    ensures Inv(Step(s, e))
  {
    match e
    case SelectOutbound(ok) =>
      if s.phase.Streaming? && s.queue != [] {
        SendPreservesInv(s, ok);
      }
    case Produce(data) =>
      if !s.phase.Stopped? {
        assert Payloads(s.sent) + (s.queue + [data]) == (Payloads(s.sent) + s.queue) + [data];
      }
    case SelectInbound(msg) =>
      InboundKeepsTraffic(s, msg);
    case _ =>
  }

  /** An inbound message touches neither the outbound traffic nor the
      connection count; at most it ends the connection. */
  lemma InboundKeepsTraffic(s: Server, msg: WsMessage)
    ensures var t := Step(s, SelectInbound(msg));
      && t.sent == s.sent && t.queue == s.queue && t.produced == s.produced
      && t.accepted == s.accepted && (t.phase == s.phase || t.phase == Listening)
  {
  }

  lemma SendPreservesInv(s: Server, ok: bool)
    requires Inv(s) && s.phase.Streaming? && s.queue != []
    ensures Inv(Step(s, SelectOutbound(ok)))
  {
    var t := Step(s, SelectOutbound(ok));
    var d := Delivery(s.phase.conn, s.queue[0], ok);
    assert t == s.(queue := s.queue[1..], sent := s.sent + [d], phase := t.phase);
    DeliverKeepsTraffic(s.sent, s.queue, s.produced, s.accepted, d);
  }

  /** Moving the head of the queue into the attempts, on the newest
      connection, keeps the traffic part of `Inv`. */
  lemma DeliverKeepsTraffic(sent: seq<Delivery>, queue: seq<seq<byte>>, produced: seq<seq<byte>>,
                            accepted: nat, d: Delivery)
    requires Payloads(sent) + queue == produced && queue != [] && d.data == queue[0]
    requires forall i :: 0 <= i < |sent| ==> sent[i].conn < accepted
    requires forall i, j :: 0 <= i < j < |sent| ==> sent[i].conn <= sent[j].conn
    requires d.conn + 1 == accepted
    ensures Payloads(sent + [d]) + queue[1..] == produced
    ensures forall i :: 0 <= i < |sent + [d]| ==> (sent + [d])[i].conn < accepted
    ensures forall i, j :: 0 <= i < j < |sent + [d]| ==> (sent + [d])[i].conn <= (sent + [d])[j].conn
  {
    PayloadsAppend(sent, d);
    assert Payloads(sent + [d]) + queue[1..] == Payloads(sent) + ([queue[0]] + queue[1..]);
    assert [queue[0]] + queue[1..] == queue;
  }

  lemma {:induction false} RunPreservesInv(s: Server, es: seq<Event>)
    requires Inv(s)
    ensures Inv(Run(s, es))
    decreases |es|
  {
    if es != [] {
      StepPreservesInv(s, es[0]);
      RunPreservesInv(Step(s, es[0]), es[1..]);
    }
  }

  /** Messages go out in the order the engine produced them: the head of
      the channel is the next one attempted, on the current connection. */
  lemma OutboundFifo(s: Server, ok: bool)
    requires s.phase.Streaming? && s.queue != []
    ensures Step(s, SelectOutbound(ok)).sent == s.sent + [Delivery(s.phase.conn, s.queue[0], ok)]
    ensures Step(s, SelectOutbound(ok)).queue == s.queue[1..]
    ensures Step(s, SelectOutbound(ok)).phase == if ok then s.phase else Listening
  {
  }

  /** A failed send consumes the message: it is not retried on the next
      connection. */
  lemma FailedSendLosesMessage(s: Server)
    requires Inv(s) && s.phase.Streaming? && s.queue != []
    ensures Step(s, SelectOutbound(false)).queue == s.queue[1..]
    ensures Step(s, SelectOutbound(false)).produced == s.produced
    ensures Step(s, SelectOutbound(false)).phase == Listening
  {
  }

  /** A text message that is not an input event is counted and the
      connection carries on; the input slot is untouched. */
  lemma BadTextKeepsConnection(s: Server, parsed: Option<Json>)
    requires s.phase.Streaming?
    requires parsed.None? || Input.ParseEvent(parsed.value).Err?
    ensures Step(s, SelectInbound(Text(parsed))).phase == s.phase
    ensures Step(s, SelectInbound(Text(parsed))).slot == s.slot
    ensures Step(s, SelectInbound(Text(parsed))).parseFailures == s.parseFailures + 1
  {
  }

  /** A text message that decodes is handled as an input event. */
  lemma GoodTextHandled(s: Server, j: Json)
    requires s.phase.Streaming? && Input.ParseEvent(j).Ok?
    ensures Step(s, SelectInbound(Text(Some(j)))).slot
      == HandleInputEvent(s.slot, s.codes, Input.ParseEvent(j).value)
    ensures Step(s, SelectInbound(Text(Some(j)))).phase == s.phase
  {
  }

  /** A failed handshake leaves the accept loop listening; a failed accept
      ends it. */
  lemma AcceptOutcomes(s: Server)
    requires s.phase.Listening?
    ensures Step(s, Accepted(false)) == s
    ensures Step(s, Accepted(true)).phase == Streaming(s.accepted)
    ensures Step(s, AcceptFailed).phase == Stopped
  {
  }

  /** Once the accept loop has ended nothing is sent or accepted again and
      the engine's messages are dropped; only the input slot can still be
      bound. */
  lemma {:induction false} StoppedForever(s: Server, es: seq<Event>)
    requires s.phase.Stopped?
    ensures Run(s, es).phase == Stopped
    ensures Run(s, es).sent == s.sent && Run(s, es).produced == s.produced
    ensures Run(s, es).accepted == s.accepted
    decreases |es|
  {
    if es != [] {
      StoppedForever(Step(s, es[0]), es[1..]);
    }
  }

  /** Everything the channel took goes out, in order, to connections in
      accept order, at most once each, over any trace from a fresh start. */
  lemma RunFromStart(slot: SenderSlot, codes: MouseCodes, es: seq<Event>)
    ensures var t := Run(Start(true, slot, codes).value, es);
      && Payloads(t.sent) + t.queue == t.produced
      && forall i, j :: 0 <= i < j < |t.sent| ==> t.sent[i].conn <= t.sent[j].conn
  {
    RunPreservesInv(Start(true, slot, codes).value, es);
  }
}
