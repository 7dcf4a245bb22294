// The PS/2 keyboard driver (src/kernel/drivers/ps2/keyboard/keyboard.cpp):
// scancode decoding, the event queue and the key state table.

module Keyboard {
  import opened Common
  import opened RingBuffer
  import opened ScancodeTables

  const QUEUE_SIZE := 32

  datatype KeyEvent = KeyEvent(key: int, pressed: bool)

  // The driver's state as a value: the bytes waiting at the port, the key state
  // table and the queued events.
  datatype View = View(input: seq<int>, pressed: seq<bool>, queued: seq<KeyEvent>)

  // A read with no byte waiting gives 0 after its retries.
  function FirstByte(input: seq<int>): int { if input == [] then 0 else input[0] }

  function AfterByte(input: seq<int>): seq<int> { if input == [] then [] else input[1..] }

  // Reads up to and including a zero byte.
  function AfterZero(input: seq<int>): seq<int> {
    if FirstByte(input) == 0 then AfterByte(input) else AfterZero(AfterByte(input))
  }

  // The decoded event and the bytes left.  The second test for 0x12 in the
  // source compares a byte already known to be 0xF0, so it never succeeds.
  function ParseScancode(input: seq<int>): (KeyEvent, seq<int>) {
    var b1, r1 := FirstByte(input), AfterByte(input);
    if b1 == 0xE0 then
      var b2, r2 := FirstByte(r1), AfterByte(r1);
      if b2 == 0x12 then (KeyEvent(UNKNOWN, true), AfterZero(r2))
      else if b2 == 0xF0 then (KeyEvent(ExtendedKey(FirstByte(r2)), false), AfterByte(r2))
      else (KeyEvent(ExtendedKey(b2), true), r2)
    else if b1 == 0xF0 then (KeyEvent(SingleByteKey(FirstByte(r1)), false), AfterByte(r1))
    else (KeyEvent(SingleByteKey(b1), true), r1)
  }

  // One run of the interrupt handler.
  function Handle(v: View): View
    requires |v.pressed| == 256
  {
    var (event, rest) := ParseScancode(v.input);
    if event.key == UNKNOWN then v.(input := rest)
    else
      v.(input := rest,
         queued := if |v.queued| == QUEUE_SIZE then v.queued else v.queued + [event],
         pressed := v.pressed[event.key := event.pressed])
  }

  function HandleTimes(v: View, n: nat): View
    requires |v.pressed| == 256
    decreases n
  {
    if n == 0 then v else HandleTimes(Handle(v), n - 1)
  }

  class Driver {
    const keyState: array<bool>
    const queue: Queue<KeyEvent>
    // The bytes the controller will deliver.
    var input: seq<int>

    ghost predicate Valid()
      reads this, queue
    {
      keyState.Length == 256 && queue.Valid() && queue.Capacity() == QUEUE_SIZE
    }

    ghost function State(): View
      reads this, queue, queue.data, keyState
      requires Valid()
    {
      View(input, keyState[..], queue.Elements())
    }

    constructor (input: seq<int>)
      ensures Valid() && fresh(keyState) && fresh(queue) && fresh(queue.data)
      ensures State() == View(input, seq(256, _ => false), [])
    {
      this.input := input;
      keyState := new bool[256](_ => false);
      queue := new Queue(QUEUE_SIZE);
    }

    method ReadByte() returns (b: int)
      modifies this
      ensures b == FirstByte(old(input)) && input == AfterByte(old(input))
    {
      if input == [] {
        return 0;
      }
      b, input := input[0], input[1..];
    }

    method SkipToZero()
      modifies this
      ensures input == AfterZero(old(input))
    {
      var b := ReadByte();
      while b != 0
        invariant AfterZero(old(input)) == if b == 0 then input else AfterZero(input)
        decreases |input| + (if b == 0 then 0 else 1)
      {
        b := ReadByte();
      }
    }

    method Parse() returns (event: KeyEvent)
      modifies this
      ensures (event, input) == ParseScancode(old(input))
    {
      var b1 := ReadByte();
      if b1 == 0xE0 {
        var b2 := ReadByte();
        if b2 == 0x12 {
          SkipToZero();
          return KeyEvent(UNKNOWN, true);
        } else if b2 == 0xF0 {
          var b3 := ReadByte();
          return KeyEvent(ExtendedKey(b3), false);
        } else {
          return KeyEvent(ExtendedKey(b2), true);
        }
      } else if b1 == 0xF0 {
        var b2 := ReadByte();
        return KeyEvent(SingleByteKey(b2), false);
      } else {
        return KeyEvent(SingleByteKey(b1), true);
      }
    }

    method KeyboardHandler()
      requires Valid()
      modifies this, keyState, queue`endIndex, queue.data
      ensures Valid() && State() == Handle(old(State()))
    {
      var event := Parse();
      if event.key != UNKNOWN {
        var pushed := queue.PushBack(event);
        keyState[event.key] := event.pressed;
      }
    }

    method PollEvent() returns (r: ErrorOr<KeyEvent>)
      requires Valid()
      modifies queue`startIndex
      ensures Valid()
      ensures var v := old(State());
              if v.queued == [] then r == Failure(ContainerIsEmpty) && State() == v
              else r == Value(v.queued[0]) && State() == v.(queued := v.queued[1..])
    {
      r := queue.PopFront();
    }

    function IsKeyPressed(key: int): (r: bool)
      reads this, queue, queue.data, keyState
      requires Valid() && 0 <= key < 256
      ensures r == State().pressed[key]
    {
      keyState[key]
    }
  }

  // ----- What the key table and the queue keep of a list of events -----

  // The last event on the key decides; `before` is its state without any.
  function LastOn(events: seq<KeyEvent>, key: int, before: bool): bool {
    if events == [] then before
    else if events[|events| - 1].key == key then events[|events| - 1].pressed
    else LastOn(events[..|events| - 1], key, before)
  }

  lemma {:induction false} LastOnDropFirst(events: seq<KeyEvent>, key: int, before: bool)
    requires events != []
    ensures LastOn(events, key, before)
         == LastOn(events[1..], key, if events[0].key == key then events[0].pressed else before)
  {
    var n := |events| - 1;
    if events[n].key != key && 0 < n {
      LastOnDropFirst(events[..n], key, before);
      assert events[..n][1..] == events[1..][..n - 1] && events[1..][n - 1] == events[n];
    } else if 0 < n {
      assert events[1..][n - 1] == events[n];
    } else {
      assert events[..0] == [] && events[1..] == [];
    }
  }

  // The events that still fit behind q.
  function Accepted(q: seq<KeyEvent>, events: seq<KeyEvent>): seq<KeyEvent>
    requires |q| <= QUEUE_SIZE
  {
    events[..if |events| <= QUEUE_SIZE - |q| then |events| else QUEUE_SIZE - |q|]
  }

  lemma NothingHandled(v: View)
    requires |v.queued| <= QUEUE_SIZE
    ensures v.queued + Accepted(v.queued, []) == v.queued
    ensures forall k, before :: LastOn([], k, before) == before
  {
  }

  // ----- Any stream of scancodes -----

  // What a keyboard may send for one key movement: a make code, released or pressed,
  // with or without the prefix 0xE0, whether or not a table maps it; or 0xE0 0x12
  // and what follows it up to a zero byte.
  datatype Message =
    | Key(extended: bool, code: int, pressed: bool)
    | Skipped(body: seq<int>)

  function Bytes(msg: Message): seq<int> {
    match msg
    case Key(extended, code, pressed) =>
      (if extended then [0xE0] else []) + (if pressed then [] else [0xF0]) + [code]
    case Skipped(body) => [0xE0, 0x12] + body + [0]
  }

  // The make code is not one that announces something else.
  ghost predicate IsMessage(msg: Message) {
    match msg
    case Key(extended, code, pressed) =>
      pressed ==> code != 0xF0 && (if extended then code != 0x12 else code != 0xE0)
    case Skipped(body) => forall i :: 0 <= i < |body| ==> body[i] != 0
  }

  // The event it stands for, if a key has that code.
  function EventOf(msg: Message): seq<KeyEvent> {
    match msg
    case Key(extended, code, pressed) =>
      var key := KeyOf(ScanCode(extended, code));
      if key == UNKNOWN then [] else [KeyEvent(key, pressed)]
    case Skipped(_) => []
  }

  function AllBytes(msgs: seq<Message>): seq<int> {
    if msgs == [] then [] else Bytes(msgs[0]) + AllBytes(msgs[1..])
  }

  function AllEvents(msgs: seq<Message>): seq<KeyEvent> {
    if msgs == [] then [] else EventOf(msgs[0]) + AllEvents(msgs[1..])
  }

  // A table maps a code exactly when a key has it.
  lemma MappedIffKnown(c: ScanCode)
    ensures KeyOf(c) != UNKNOWN <==> exists key :: IsKnown(key) && CodeOf(key) == c
  {
    hide CodeOf, KeyOf, IsKnown;
    if KeyOf(c) != UNKNOWN {
      MappedIsKnown(c);
    }
    forall key | IsKnown(key) && CodeOf(key) == c
      ensures KeyOf(c) != UNKNOWN
    {
      TablesInvert(key);
    }
  }

  lemma {:induction false} SkipsBody(body: seq<int>, rest: seq<int>)
    requires forall i :: 0 <= i < |body| ==> body[i] != 0
    ensures AfterZero(body + [0] + rest) == rest
  {
    var s := body + [0] + rest;
    if body == [] {
      assert s[1..] == rest;
    } else {
      assert s[1..] == body[1..] + [0] + rest;
      SkipsBody(body[1..], rest);
    }
  }

  lemma SkipsMessage(body: seq<int>, rest: seq<int>)
    requires forall i :: 0 <= i < |body| ==> body[i] != 0
    ensures ParseScancode(Bytes(Skipped(body)) + rest) == (KeyEvent(UNKNOWN, true), rest)
  {
    hide AfterZero;
    var s := Bytes(Skipped(body)) + rest;
    assert s[1..][1..] == body + [0] + rest && s[1..][0] == 0x12;
    SkipsBody(body, rest);
  }

  // Exactly the bytes of the message are consumed, and what comes out is its key, or
  // the unknown key.
  lemma ParseMessage(msg: Message, rest: seq<int>)
    requires IsMessage(msg)
    ensures var (event, left) := ParseScancode(Bytes(msg) + rest);
            && left == rest
            && EventOf(msg) == if event.key == UNKNOWN then [] else [event]
  {
    hide SingleByteKey, ExtendedKey;
    var s := Bytes(msg) + rest;
    match msg
    case Key(extended, code, pressed) =>
      if extended && !pressed {
        assert s[1..][1..][1..] == rest && s[1..][1..][0] == code;
      } else if extended || !pressed {
        assert s[1..][1..] == rest && s[1..][0] == code;
      } else {
        assert s[1..] == rest;
      }
    case Skipped(body) =>
      SkipsMessage(body, rest);
  }

  lemma HandleMessage(v: View, msg: Message, rest: seq<int>)
    requires |v.pressed| == 256 && |v.queued| <= QUEUE_SIZE && IsMessage(msg) && v.input == Bytes(msg) + rest
    ensures var e := EventOf(msg);
            && |e| <= 1 && (e != [] ==> 0 <= e[0].key < 256)
            && Handle(v) == View(rest, if e == [] then v.pressed else v.pressed[e[0].key := e[0].pressed],
                                 v.queued + Accepted(v.queued, e))
  {
    ParseMessage(msg, rest);
    hide ParseScancode, Bytes, EventOf;
  }

  lemma AcceptMore(q: seq<KeyEvent>, a: seq<KeyEvent>, b: seq<KeyEvent>)
    requires |q| <= QUEUE_SIZE && |a| <= 1
    ensures var q' := q + Accepted(q, a);
            |q'| <= QUEUE_SIZE && q + Accepted(q, a + b) == q' + Accepted(q', b)
  {
    if a == [] {
      assert a + b == b;
    } else {
      assert (a + b)[1..] == b;
    }
  }

  lemma LastOnFirst(a: seq<KeyEvent>, b: seq<KeyEvent>, key: int, before: bool)
    requires |a| <= 1
    ensures LastOn(a + b, key, before)
         == LastOn(b, key, if a != [] && a[0].key == key then a[0].pressed else before)
  {
    if a == [] {
      assert a + b == b;
    } else {
      LastOnDropFirst(a + b, key, before);
      assert (a + b)[1..] == b;
    }
  }

  // One handler call per message, mapped and unmapped ones mixed: the queue receives
  // the events of the mapped ones in order, up to its capacity, the key table
  // changes for these only, and exactly the bytes of the messages are consumed.
  lemma {:induction false} HandlerSkipsUnknown(v: View, msgs: seq<Message>, tail: seq<int>)
    requires |v.pressed| == 256 && |v.queued| <= QUEUE_SIZE
    requires (forall i :: 0 <= i < |msgs| ==> IsMessage(msgs[i])) && v.input == AllBytes(msgs) + tail
    ensures var w, events := HandleTimes(v, |msgs|), AllEvents(msgs);
            && w.input == tail && |w.pressed| == 256
            && w.queued == v.queued + Accepted(v.queued, events)
            && (forall k :: 0 <= k < 256 ==> w.pressed[k] == LastOn(events, k, v.pressed[k]))
    decreases |msgs|
  {
    hide Bytes, EventOf, Handle, IsMessage, LastOn, Accepted;
    if msgs == [] {
      assert AllBytes(msgs) + tail == tail;
      NothingHandled(v);
    } else {
      var e, rest := EventOf(msgs[0]), msgs[1..];
      assert v.input == Bytes(msgs[0]) + (AllBytes(rest) + tail);
      HandleMessage(v, msgs[0], AllBytes(rest) + tail);
      AcceptMore(v.queued, e, AllEvents(rest));
      var u := Handle(v);
      HandlerSkipsUnknown(u, rest, tail);
      forall k | 0 <= k < 256
        ensures LastOn(AllEvents(rest), k, u.pressed[k]) == LastOn(AllEvents(msgs), k, v.pressed[k])
      {
        LastOnFirst(e, AllEvents(rest), k, v.pressed[k]);
      }
    }
  }

  // ----- Decoding inverts the keyboard's encoding -----

  // What a keyboard sends in scancode set 2.
  function MessageOf(e: KeyEvent): Message {
    var c := CodeOf(e.key);
    Key(c.extended, c.code, e.pressed)
  }

  function Encode(e: KeyEvent): seq<int> { Bytes(MessageOf(e)) }

  function EncodeAll(events: seq<KeyEvent>): seq<int> {
    if events == [] then [] else Encode(events[0]) + EncodeAll(events[1..])
  }

  ghost predicate AllKnown(events: seq<KeyEvent>) {
    forall i :: 0 <= i < |events| ==> IsKnown(events[i].key)
  }

  lemma KnownMessage(e: KeyEvent)
    requires IsKnown(e.key)
    ensures IsMessage(MessageOf(e)) && EventOf(MessageOf(e)) == [e] && 0 <= e.key < UNKNOWN
  {
    TablesInvert(e.key);
    hide CodeOf, SingleByteKey, ExtendedKey, IsKnown;
  }

  lemma ParseEncoded(e: KeyEvent, rest: seq<int>)
    requires IsKnown(e.key)
    ensures ParseScancode(Encode(e) + rest) == (e, rest)
  {
    hide ParseScancode, Bytes, MessageOf, EventOf, IsMessage;
    KnownMessage(e);
    ParseMessage(MessageOf(e), rest);
  }

  lemma {:induction false} KnownMessages(events: seq<KeyEvent>) returns (msgs: seq<Message>)
    requires AllKnown(events)
    ensures |msgs| == |events| && AllBytes(msgs) == EncodeAll(events) && AllEvents(msgs) == events
    ensures forall i :: 0 <= i < |msgs| ==> IsMessage(msgs[i])
    decreases |events|
  {
    hide Bytes, MessageOf, EventOf, IsMessage, IsKnown;
    if events == [] {
      msgs := [];
    } else {
      KnownMessage(events[0]);
      var rest := KnownMessages(events[1..]);
      msgs := [MessageOf(events[0])] + rest;
      assert msgs[1..] == rest && events == [events[0]] + events[1..];
    }
  }

  // One handler call per event decodes the concatenated encodings of any list of
  // events on known keys: the queue receives that list in order, up to its
  // capacity, and the key table shows the last event on each key even where the
  // queue had to drop it.
  lemma HandlerDecodesAll(v: View, events: seq<KeyEvent>, tail: seq<int>)
    requires |v.pressed| == 256 && |v.queued| <= QUEUE_SIZE && AllKnown(events)
    requires v.input == EncodeAll(events) + tail
    ensures var w := HandleTimes(v, |events|);
            && w.input == tail && |w.pressed| == 256
            && w.queued == v.queued + Accepted(v.queued, events)
            && (forall k :: 0 <= k < 256 ==> w.pressed[k] == LastOn(events, k, v.pressed[k]))
  {
    hide HandleTimes, LastOn, Accepted, IsMessage, AllKnown;
    var msgs := KnownMessages(events);
    HandlerSkipsUnknown(v, msgs, tail);
  }
}
