/** The engine-side end of the input path (`src/electron_interface.rs`):
    the shared optional sender that `DummyInterface::send` writes to, and
    `handle_input_event` forwarding one decoded event through it. */
module Adapter {
  import opened Wrappers
  import opened Proto
  import opened Input

  /** The shared `RwLock<Option<UnboundedSender<Data>>>`, with the items
      sent into the bound channel so far. The session engine binds it once
      its connection is up; until then it is `Unbound`. */
  datatype SenderSlot = Unbound | Bound(queue: seq<Data>)

  /** `DummyInterface::send`: forwards into the channel when one is bound,
      and otherwise does nothing and reports nothing. */
  function Send(slot: SenderSlot, d: Data): (r: SenderSlot)
    ensures r.Unbound? <==> slot.Unbound?
    ensures slot.Bound? ==> |r.queue| == |slot.queue| + 1 && r.queue[..|slot.queue|] == slot.queue
    ensures slot.Bound? ==> r.queue[|slot.queue|] == d
  {
    match slot
    case Unbound => Unbound
    case Bound(q) => Bound(q + [d])
  }

  /** The engine installing a fresh channel in the slot. */
  function Attach(slot: SenderSlot): (r: SenderSlot)
    ensures r.Bound? && r.queue == []
  {
    Bound([])
  }

  /** `handle_input_event`: translates the event and sends the result, if
      any, through the slot. */
  function HandleInputEvent(slot: SenderSlot, codes: MouseCodes, e: InputEvent): (r: SenderSlot)
    ensures r.Unbound? <==> slot.Unbound?
    ensures slot.Bound? ==> |r.queue| == |slot.queue| + (if TranslateEvent(codes, e).Some? then 1 else 0)
    ensures slot.Bound? ==> r.queue[..|slot.queue|] == slot.queue
  {
    match TranslateEvent(codes, e)
    case Some(d) => Send(slot, d)
    case None => slot
  }

  /** What a sequence of events puts on a bound channel: the translation of
      each event, in order, skipping keys that map to nothing. */
  function Translated(codes: MouseCodes, es: seq<InputEvent>): (r: seq<Data>)
    ensures |r| <= |es|
  {
    if es == [] then [] else Translation(codes, es[0]) + Translated(codes, es[1..])
  }

  /** The translation of one event as a list of zero or one items. */
  function Translation(codes: MouseCodes, e: InputEvent): (r: seq<Data>)
    ensures |r| <= 1
  {
    match TranslateEvent(codes, e)
    case Some(d) => [d]
    case None => []
  }

  /** On a bound channel, one event appends exactly its translation. */
  lemma HandleOne(q: seq<Data>, codes: MouseCodes, e: InputEvent)
    ensures HandleInputEvent(Bound(q), codes, e) == Bound(q + Translation(codes, e))
  {
  }

  /** Handling events one after another. */
  function HandleAll(slot: SenderSlot, codes: MouseCodes, es: seq<InputEvent>): SenderSlot
    decreases |es|
  {
    if es == [] then slot else HandleAll(HandleInputEvent(slot, codes, es[0]), codes, es[1..])
  }

  lemma {:induction false} HandleAllUnbound(codes: MouseCodes, es: seq<InputEvent>)
    ensures HandleAll(Unbound, codes, es) == Unbound
    decreases |es|
  {
    if es != [] {
      assert HandleInputEvent(Unbound, codes, es[0]) == Unbound;
      HandleAllUnbound(codes, es[1..]);
    }
  }

  lemma {:induction false} HandleAllBound(q: seq<Data>, codes: MouseCodes, es: seq<InputEvent>)
    ensures HandleAll(Bound(q), codes, es) == Bound(q + Translated(codes, es))
    decreases |es|
  {
    if es == [] {
      assert q + Translated(codes, es) == q;
    } else {
      var t := Translation(codes, es[0]);
      var rest := Translated(codes, es[1..]);
      BoundStep(q, codes, es);
      HandleAllBound(q + t, codes, es[1..]);
      Assoc(q, t, rest);
    }
  }

  lemma Assoc(a: seq<Data>, b: seq<Data>, c: seq<Data>)
    ensures (a + b) + c == a + (b + c)
  {
  }

  /** The first event of a non-empty run, on a bound channel. */
  lemma BoundStep(q: seq<Data>, codes: MouseCodes, es: seq<InputEvent>)
    requires es != []
    ensures HandleAll(Bound(q), codes, es) == HandleAll(Bound(q + Translation(codes, es[0])), codes, es[1..])
    ensures Translated(codes, es) == Translation(codes, es[0]) + Translated(codes, es[1..])
  {
    HandleOne(q, codes, es[0]);
  }

  /** While no channel is bound every event is dropped without effect; once
      one is bound, the channel receives exactly the translated events in
      the order they arrived. */
  lemma HandleAllQueue(slot: SenderSlot, codes: MouseCodes, es: seq<InputEvent>)
    ensures slot.Unbound? ==> HandleAll(slot, codes, es) == Unbound
    ensures slot.Bound? ==> HandleAll(slot, codes, es) == Bound(slot.queue + Translated(codes, es))
  {
    if slot.Unbound? {
      HandleAllUnbound(codes, es);
    } else {
      HandleAllBound(slot.queue, codes, es);
    }
  }

  /** Each pointer event yields exactly one item; only keys can be dropped. */
  lemma PointerAlwaysSent(codes: MouseCodes, e: InputEvent, q: seq<Data>)
    requires !(e.KeyDown? || e.KeyUp?)
    ensures HandleInputEvent(Bound(q), codes, e) == Bound(q + [TranslateEvent(codes, e).value])
  {
  }
}
