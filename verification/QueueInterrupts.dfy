// The keyboard event queue with the interrupt handler running between any two
// memory accesses of the main loop's pop_front
// (src/kernel/data/queue.hpp, src/kernel/drivers/ps2/keyboard/keyboard.cpp).

module QueueInterrupts {
  import opened RingBuffer

  // Where the main loop is inside pop_front.  `seen` counts the elements accepted
  // when m_endIndex was loaded; it only serves the specification.
  datatype Pc<T> =
    | Idle
    | EndLoaded(end: nat, seen: nat)
    | NotEmpty
    | ElementLoaded(element: T)

  // accepted and popped record the history of the queue.
  datatype System<T> = System(data: seq<T>, start: nat, end: nat, pc: Pc<T>, accepted: seq<T>, popped: seq<T>)

  // One access of the main loop, or one run of the interrupt handler, which
  // cannot itself be interrupted.
  datatype Event<T> = MainLoop | Interrupt(x: T)

  ghost predicate Ready<T>(s: System<T>) {
    s.start < |s.data| && s.end < |s.data|
  }

  function Step<T>(s: System<T>, e: Event<T>): System<T>
    requires s.start < |s.data| && s.end < |s.data|
  {
    match e
    case Interrupt(x) =>
      if NextPosition(s.end, |s.data|) == s.start then s
      else s.(data := s.data[s.end := x], end := NextPosition(s.end, |s.data|), accepted := s.accepted + [x])
    case MainLoop =>
      match s.pc
      case Idle => s.(pc := EndLoaded(s.end, |s.accepted|))
      case EndLoaded(end, _) => s.(pc := if end == s.start then Idle else NotEmpty)
      case NotEmpty => s.(pc := ElementLoaded(s.data[s.start]))
      case ElementLoaded(x) => s.(start := NextPosition(s.start, |s.data|), pc := Idle, popped := s.popped + [x])
  }

  function Run<T>(s: System<T>, events: seq<Event<T>>): System<T>
    requires s.start < |s.data| && s.end < |s.data|
    decreases |events|
  {
    if events == [] then s else Run(Step(s, events[0]), events[1..])
  }

  // The queue holds exactly what was accepted and not yet popped, in order; an
  // element being popped is still the first one and still in its slot; a loaded
  // end index still marks the end of what had been accepted by then.
  ghost predicate Inv<T>(s: System<T>) {
    && Ready(s)
    && s.accepted == s.popped + Contents(s.data, s.start, s.end)
    && match s.pc
       case Idle => true
       case EndLoaded(end, seen) =>
         && |s.popped| <= seen <= |s.accepted|
         && end == Slot(s.start, seen - |s.popped|, |s.data|)
       case NotEmpty => s.start != s.end
       case ElementLoaded(x) => s.start != s.end && s.data[s.start] == x
  }

  function Initial<T>(data: seq<T>): System<T> {
    System(data, 0, 0, Idle, [], [])
  }

  lemma InterruptKeepsInv<T>(s: System<T>, x: T)
    requires Inv(s)
    ensures Inv(Step(s, Interrupt(x)))
  {
  }

  lemma MainLoopKeepsInv<T>(s: System<T>)
    requires Inv(s)
    ensures Inv(Step(s, MainLoop))
  {
  }

  // Over every interleaving the ring buffer is a FIFO.
  lemma {:induction false} RunKeepsInv<T>(s: System<T>, events: seq<Event<T>>)
    requires Inv(s)
    ensures Inv(Run(s, events))
    decreases |events|
  {
    if events != [] {
      match events[0] {
        case MainLoop => MainLoopKeepsInv(s);
        case Interrupt(x) => InterruptKeepsInv(s, x);
      }
      RunKeepsInv(Step(s, events[0]), events[1..]);
    }
  }

  // Nothing is lost, duplicated or reordered: what was popped is a prefix of
  // what was accepted, and the rest is in the buffer.
  lemma FifoUnderInterrupts<T>(data: seq<T>, events: seq<Event<T>>)
    requires data != []
    ensures var s := Run(Initial(data), events);
            Ready(s) && s.popped <= s.accepted && s.accepted[|s.popped|..] == Contents(s.data, s.start, s.end)
  {
    RunKeepsInv(Initial(data), events);
  }

  // A push is refused exactly when SIZE elements are waiting, and never touches
  // the slot that a pop in progress is reading.
  lemma PushRefusedIff<T>(s: System<T>, x: T)
    requires Inv(s)
    ensures var t := Step(s, Interrupt(x));
            && (t == s <==> |s.accepted| - |s.popped| == |s.data| - 1)
            && (t != s ==> t.accepted == s.accepted + [x] && t.popped == s.popped)
            && (s.start != s.end ==> t.data[s.start] == s.data[s.start])
  {
  }

  // pop_front answers "empty" exactly when everything accepted before it looked
  // had been popped, and otherwise delivers the next element in order.
  lemma PopIsNextOrEmpty<T>(s: System<T>)
    requires Inv(s)
    ensures s.pc.EndLoaded? ==> (Step(s, MainLoop).pc == Idle <==> s.pc.seen == |s.popped|)
    ensures s.pc.ElementLoaded? ==>
              |s.popped| < |s.accepted| && Step(s, MainLoop).popped == s.popped + [s.accepted[|s.popped|]]
  {
  }

  // Left alone, the four accesses are one pop_front.
  lemma UninterruptedPop<T>(s: System<T>)
    requires Inv(s) && s.pc == Idle && s.start != s.end
    ensures var t := Run(s, [MainLoop, MainLoop, MainLoop, MainLoop]);
            && t.pc == Idle && t.popped == s.popped + Contents(s.data, s.start, s.end)[..1]
            && Ready(t) && Contents(t.data, t.start, t.end) == Contents(s.data, s.start, s.end)[1..]
  {
    var m: Event<T> := MainLoop;
    var s1 := Step(s, m);
    var s2 := Step(s1, m);
    var s3 := Step(s2, m);
    var s4 := Step(s3, m);
    assert Run(s3, [m]) == Run(s4, []) == s4;
    assert [m, m][1..] == [m] && [m, m, m][1..] == [m, m] && [m, m, m, m][1..] == [m, m, m];
    assert Run(s2, [m, m]) == s4;
    assert Run(s1, [m, m, m]) == s4;
  }
}
