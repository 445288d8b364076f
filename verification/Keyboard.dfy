/** The keyboard controller (frontend/keyboard.cpp): a 16-slot ring, a status bit and an IRQ line. */
module Keyboard {
  import opened Machine

  const BUFFER_SIZE := 16
  const RBR_ADDR := 0x60
  const STR_ADDR := 0x64
  const CONFIGURE := 0x60
  const FI_MASK: byte := 1

  // ----- the controller as a state machine over its public calls

  /**
   * The registers, the queue the ring stands for, and the history: the IRQ line, its rising edges,
   * the keycodes accepted and delivered, and how many were delivered while the line was low.
   */
  datatype State = State(
    rbr: byte, tbr: byte, str: byte, cmr: byte,
    enabled: bool, interruptEnabled: bool, raised: bool, queue: seq<byte>,
    line: bool, edges: nat, accepted: seq<byte>, popped: seq<byte>, quiet: nat)

  const INITIAL := State(0, 0, 0, 0, false, false, false, [], false, 0, [], [], 0)

  /** Every call holds the controller's mutex, so each is one step. */
  datatype Event = Insert(keycode: byte) | Read(addr: word) | Write(addr: word, val: byte)

  function SetLine(k: State, level: bool): State {
    k.(line := level, edges := if level && !k.line then k.edges + 1 else k.edges)
  }

  function UpdateFi(k: State, insert: bool): State {
    var k1 := if insert then k else SetLine(k, false).(raised := false);
    if k1.queue != [] then
      var k2 := k1.(str := SetBit(k1.str, FI_MASK));
      if k2.interruptEnabled then SetLine(k2, true).(raised := true) else k2
    else
      var k2 := k1.(str := ClearBit(k1.str, FI_MASK));
      if k2.raised then SetLine(k2, false).(raised := false) else k2
  }

  function NextRbr(k: State): State {
    if k.queue == [] then k
    else k.(rbr := k.queue[0], queue := k.queue[1..], popped := k.popped + [k.queue[0]],
            quiet := if k.raised then k.quiet else k.quiet + 1)
  }

  function ProcessCmd(k: State): State {
    if k.cmr != CONFIGURE then k
    else
      var k1 := k.(enabled := !TestBit(k.tbr, 0x10), interruptEnabled := TestBit(k.tbr, 0x01));
      if k1.interruptEnabled && k1.queue != [] && !k1.raised then SetLine(k1, true).(raised := true) else k1
  }

  function Step(k: State, e: Event): State {
    match e
    case Insert(keycode) =>
      if !k.enabled || |k.queue| == BUFFER_SIZE then k
      else UpdateFi(k.(queue := k.queue + [keycode], accepted := k.accepted + [keycode]), true)
    case Read(addr) =>
      if addr == RBR_ADDR then UpdateFi(NextRbr(k), false) else k
    case Write(addr, val) =>
      if addr == STR_ADDR then k.(cmr := val)
      else if addr == RBR_ADDR then ProcessCmd(k.(tbr := val))
      else k
  }

  /** What a read returns. */
  function Reply(k: State, addr: word): byte {
    if addr == RBR_ADDR then NextRbr(k).rbr else if addr == STR_ADDR then k.str else 0
  }

  // ----- the device

  /** The queue in a ring: count slots from tail on, wrapping. */
  function RingContents(ring: seq<byte>, tail: nat, count: nat): (q: seq<byte>)
    requires |ring| == BUFFER_SIZE
    ensures |q| == count
  {
    seq(count, i requires 0 <= i < count => ring[(tail + i) % BUFFER_SIZE])
  }

  /** Positions past the end of the ring start over. */
  lemma Wrapped(a: nat)
    requires a < 2 * BUFFER_SIZE
    ensures a % BUFFER_SIZE == if a < BUFFER_SIZE then a else a - BUFFER_SIZE
  {
  }

  lemma RingPop(ring: seq<byte>, tail: nat, count: nat)
    requires |ring| == BUFFER_SIZE && tail < BUFFER_SIZE && 0 < count <= BUFFER_SIZE
    ensures RingContents(ring, tail, count)[0] == ring[tail]
    ensures RingContents(ring, (tail + 1) % BUFFER_SIZE, count - 1) == RingContents(ring, tail, count)[1..]
  {
    var next := (tail + 1) % BUFFER_SIZE;
    Wrapped(tail);
    Wrapped(tail + 1);
    var (after, rest) := (RingContents(ring, next, count - 1), RingContents(ring, tail, count)[1..]);
    forall i | 0 <= i < count - 1 ensures after[i] == rest[i] {
      Wrapped(next + i);
      Wrapped(tail + (i + 1));
    }
  }

  lemma RingPush(ring: seq<byte>, tail: nat, count: nat, v: byte)
    requires |ring| == BUFFER_SIZE && tail < BUFFER_SIZE && count < BUFFER_SIZE
    ensures RingContents(ring[(tail + count) % BUFFER_SIZE := v], tail, count + 1) ==
            RingContents(ring, tail, count) + [v]
  {
    Wrapped(tail + count);
    var after := RingContents(ring[(tail + count) % BUFFER_SIZE := v], tail, count + 1);
    var before := RingContents(ring, tail, count);
    forall i | 0 <= i < count ensures after[i] == before[i] {
      Wrapped(tail + i);
    }
  }

  class Controller {
    var RBR: byte
    var TBR: byte
    var STR: byte
    var CMR: byte
    var enabled: bool
    var interruptEnabled: bool
    const buffer: array<byte>
    var head: nat
    var tail: nat
    var count: nat
    var raised: bool

    ghost var line: bool
    ghost var edges: nat
    ghost var accepted: seq<byte>
    ghost var popped: seq<byte>
    ghost var quiet: nat

    ghost predicate Valid()
      reads this
    {
      && buffer.Length == BUFFER_SIZE && head < BUFFER_SIZE && tail < BUFFER_SIZE && count <= BUFFER_SIZE
      && head == (tail + count) % BUFFER_SIZE
    }

    ghost function Queue(): seq<byte>
      requires Valid()
      reads this, buffer
    {
      RingContents(buffer[..], tail, count)
    }

    ghost function View(): State
      requires Valid()
      reads this, buffer
    {
      State(RBR, TBR, STR, CMR, enabled, interruptEnabled, raised, Queue(), line, edges, accepted, popped, quiet)
    }

    constructor ()
      ensures Valid() && fresh(buffer) && View() == INITIAL
    {
      RBR, TBR, STR, CMR := 0, 0, 0, 0;
      enabled, interruptEnabled, raised := false, false, false;
      buffer := new byte[BUFFER_SIZE](_ => 0);
      head, tail, count := 0, 0, 0;
      line, edges, accepted, popped, quiet := false, 0, [], [], 0;
    }

    /** Stands for the ioctl that drives the line. */
    ghost method SetIrqLine(level: bool)
      requires Valid()
      modifies this`line, this`edges
      ensures Valid() && View() == SetLine(old(View()), level)
    {
      hide RingContents;
      edges := if level && !line then edges + 1 else edges;
      line := level;
    }

    method DoProcessCmd()
      requires Valid()
      modifies this
      ensures Valid() && View() == ProcessCmd(old(View()))
    {
      hide RingContents;
      if CMR == CONFIGURE {
        enabled := !TestBit(TBR, 0x10);
        if TestBit(TBR, 0x01) {
          interruptEnabled := true;
          if count != 0 && !raised {
            SetIrqLine(true);
            raised := true;
          }
        } else {
          interruptEnabled := false;
        }
      }
    }

    method DoNextRbr()
      requires Valid()
      modifies this
      ensures Valid() && View() == NextRbr(old(View()))
    {
      hide RingContents;
      if count != 0 {
        ghost var queue := Queue();
        RingPop(buffer[..], tail, count);
        assert queue[0] == buffer[tail];
        RBR := buffer[tail];
        tail := (tail + 1) % BUFFER_SIZE;
        count := count - 1;
        assert Queue() == queue[1..];
        popped, quiet := popped + [RBR], if raised then quiet else quiet + 1;
      }
    }

    method DoUpdateFi(insert: bool)
      requires Valid()
      modifies this
      ensures Valid() && View() == UpdateFi(old(View()), insert)
    {
      hide RingContents;
      if !insert {
        SetIrqLine(false);
        raised := false;
      }
      if count != 0 {
        STR := SetBit(STR, FI_MASK);
        if interruptEnabled {
          SetIrqLine(true);
          raised := true;
        }
      } else {
        STR := ClearBit(STR, FI_MASK);
        if raised {
          SetIrqLine(false);
          raised := false;
        }
      }
    }

    method WriteRegByte(addr: word, val: byte)
      requires Valid()
      modifies this
      ensures Valid() && View() == Step(old(View()), Write(addr, val))
    {
      if addr == STR_ADDR {
        CMR := val;
      } else if addr == RBR_ADDR {
        TBR := val;
        DoProcessCmd();
      }
    }

    method ReadRegByte(addr: word) returns (result: byte)
      requires Valid()
      modifies this
      ensures Valid() && View() == Step(old(View()), Read(addr))
      ensures result == Reply(old(View()), addr)
    {
      result := 0;
      if addr == RBR_ADDR {
        DoNextRbr();
        result := RBR;
        DoUpdateFi(false);
      } else if addr == STR_ADDR {
        result := STR;
      }
    }

    method InsertKeycodeEvent(keycode: byte)
      requires Valid()
      modifies this, buffer
      ensures Valid() && View() == Step(old(View()), Insert(keycode))
    {
      hide RingContents;
      if !enabled || count == BUFFER_SIZE { return; }
      RingPush(buffer[..], tail, count, keycode);
      ghost var ring := buffer[..][head := keycode];
      buffer[head] := keycode;
      assert buffer[..] == ring;
      head := (head + 1) % BUFFER_SIZE;
      count := count + 1;
      accepted := accepted + [keycode];
      DoUpdateFi(true);
    }
  }

  // ----- every interleaving

  function Run(k: State, events: seq<Event>): State
    decreases |events|
  {
    if events == [] then k else Run(Step(k, events[0]), events[1..])
  }

  /** What every step keeps. */
  predicate Inv(k: State) {
    && |k.queue| <= BUFFER_SIZE
    && k.accepted == k.popped + k.queue
    && k.str == (if k.queue != [] then FI_MASK else 0)
    && k.line == k.raised
    && (k.raised ==> k.queue != [])
    && (k.interruptEnabled && k.queue != [] ==> k.raised)
    && k.quiet <= |k.popped|
    && k.edges + k.quiet == |k.popped| + (if k.raised then 1 else 0)
  }

  lemma StepKeepsInv(k: State, e: Event)
    requires Inv(k)
    ensures Inv(Step(k, e))
  {
    if e.Insert? && k.enabled && |k.queue| < BUFFER_SIZE {
      assert k.accepted + [e.keycode] == k.popped + (k.queue + [e.keycode]);
    } else if e.Read? && k.queue != [] {
      assert k.popped + k.queue == k.popped + [k.queue[0]] + k.queue[1..];
    }
  }

  /**
   * The ring is a bounded FIFO with a truthful status bit, and interrupts are conserved: each delivery
   * found the line raised by one edge of its own, except those made while the line was low.
   */
  lemma {:induction false} RunKeepsInv(k: State, events: seq<Event>)
    requires Inv(k)
    ensures Inv(Run(k, events))
    decreases |events|
  {
    if events != [] {
      StepKeepsInv(k, events[0]);
      RunKeepsInv(Step(k, events[0]), events[1..]);
    }
  }

  lemma FromPowerOn(events: seq<Event>)
    ensures Inv(Run(INITIAL, events))
    ensures var k := Run(INITIAL, events); k.edges <= |k.popped| + (if k.raised then 1 else 0)
  {
    hide Step, Run;
    RunKeepsInv(INITIAL, events);
  }

  /** Interrupts are enabled in every state of the run. */
  predicate StaysEnabled(k: State, events: seq<Event>)
    decreases |events|
  {
    k.interruptEnabled && (events != [] ==> StaysEnabled(Step(k, events[0]), events[1..]))
  }

  /** With interrupts enabled throughout, edges and deliveries differ by the one edge still pending. */
  lemma {:induction false} EnabledEdges(k: State, events: seq<Event>)
    requires Inv(k) && StaysEnabled(k, events)
    ensures var r := Run(k, events);
      && r.quiet == k.quiet
      && r.edges + |k.popped| + (if k.queue != [] then 1 else 0) ==
         k.edges + |r.popped| + (if r.queue != [] then 1 else 0)
    decreases |events|
  {
    if events != [] {
      StepKeepsInv(k, events[0]);
      EnabledEdges(Step(k, events[0]), events[1..]);
    }
  }

  /** No step but a data read takes anything from the queue. */
  predicate NoDataRead(events: seq<Event>) {
    forall i :: 0 <= i < |events| ==> events[i] != Read(RBR_ADDR)
  }

  /** The reply to a status read has FI set exactly when a keycode is waiting. */
  lemma StatusTells(k: State)
    requires Inv(k)
    ensures Reply(k, 0x64) % 2 == 1 <==> k.queue != []
    ensures Step(k, Read(0x64)) == k
  {
  }

  /** FI seen by the single consumer stays set, and its next data read returns the key that was first then. */
  lemma {:induction false} StatusIsStable(k: State, events: seq<Event>)
    requires Inv(k) && Reply(k, 0x64) % 2 == 1 && NoDataRead(events)
    ensures var r := Run(k, events);
      Reply(r, 0x64) % 2 == 1 && Reply(r, 0x60) == Reply(k, 0x60) == k.queue[0]
    decreases |events|
  {
    StatusTells(k);
    if events != [] {
      var e, k1 := events[0], Step(k, events[0]);
      StepKeepsInv(k, e);
      assert k1.queue != [] && k1.queue[0] == k.queue[0];
      StatusTells(k1);
      StatusIsStable(k1, events[1..]);
    }
  }

  // ----- what each access is for

  /** The configuration command: bit 4 disables the keyboard, bit 0 enables interrupts; no keycode is lost. */
  lemma Configured(k: State, v: byte)
    requires Inv(k)
    ensures var r := Run(k, [Write(0x64, 0x60), Write(0x60, v)]);
      && r.enabled == (v / 16 % 2 == 0) && r.interruptEnabled == (v % 2 == 1)
      && r.queue == k.queue && r.popped == k.popped
      && r.raised == (k.raised || (v % 2 == 1 && k.queue != []))
  {
    RunPair(k, Write(0x64, 0x60), Write(0x60, v));
  }

  /** Any other command changes nothing but the command and data registers. */
  lemma OtherCommandIgnored(k: State, c: byte, v: byte)
    requires c != 0x60
    ensures Run(k, [Write(0x64, c), Write(0x60, v)]) == k.(cmr := c, tbr := v)
  {
    RunPair(k, Write(0x64, c), Write(0x60, v));
  }

  lemma RunPair(k: State, a: Event, b: Event)
    ensures Run(k, [a, b]) == Step(Step(k, a), b)
  {
    hide Step;
    var k1 := Step(k, a);
    assert [a, b][1..] == [b] && [b][1..] == [];
    assert Run(k, [a, b]) == Run(k1, [b]);
    assert Run(k1, [b]) == Run(Step(k1, b), []);
  }

  /** A keycode is taken exactly when the keyboard is enabled and fewer than 16 are waiting. */
  lemma InsertTaken(k: State, keycode: byte)
    requires Inv(k)
    ensures var r := Step(k, Insert(keycode));
      if k.enabled && |k.queue| < 16 then
        r.queue == k.queue + [keycode] && r.popped == k.popped && r.raised == (k.raised || k.interruptEnabled)
      else r == k
  {
  }

  /** Other ports are dead. */
  lemma OtherPortsDead(k: State, addr: word, val: byte)
    requires addr != 0x60 && addr != 0x64
    ensures Reply(k, addr) == 0 && Step(k, Read(addr)) == k && Step(k, Write(addr, val)) == k
  {
  }

  // ----- delivery

  /** The replies to data reads made with the status bit set. */
  function Polled(k: State, events: seq<Event>): seq<byte>
    decreases |events|
  {
    if events == [] then []
    else PolledNow(k, events[0]) + Polled(Step(k, events[0]), events[1..])
  }

  /** The keycodes of a run's insert events, and whether none of them was dropped. */
  function Inserted(events: seq<Event>): seq<byte> {
    if events == [] then []
    else InsertedBy(events[0]) + Inserted(events[1..])
  }

  predicate Dropless(k: State, events: seq<Event>)
    decreases |events|
  {
    events != [] ==>
      (events[0].Insert? ==> k.enabled && |k.queue| < BUFFER_SIZE) && Dropless(Step(k, events[0]), events[1..])
  }

  /** The reply an event delivers to a consumer that looks at the status first. */
  function PolledNow(k: State, e: Event): seq<byte> {
    if e == Read(RBR_ADDR) && TestBit(k.str, FI_MASK) then [Reply(k, RBR_ADDR)] else []
  }

  lemma StepPops(k: State, e: Event)
    requires Inv(k)
    ensures Step(k, e).popped == k.popped + PolledNow(k, e)
  {
    assert k.popped + [] == k.popped;
  }

  lemma {:induction false} PolledArePopped(k: State, events: seq<Event>)
    requires Inv(k)
    ensures Run(k, events).popped == k.popped + Polled(k, events)
    decreases |events|
  {
    if events != [] {
      hide Step, Inv, PolledNow;
      var k1 := Step(k, events[0]);
      StepKeepsInv(k, events[0]);
      StepPops(k, events[0]);
      PolledArePopped(k1, events[1..]);
      Associative(k.popped, PolledNow(k, events[0]), Polled(k1, events[1..]));
    }
  }

  /** What an event inserts. */
  function InsertedBy(e: Event): seq<byte> {
    if e.Insert? then [e.keycode] else []
  }

  lemma StepAccepts(k: State, e: Event)
    requires e.Insert? ==> k.enabled && |k.queue| != BUFFER_SIZE
    ensures Step(k, e).accepted == k.accepted + InsertedBy(e)
  {
    assert k.accepted + [] == k.accepted;
    hide SetBit, ClearBit, TestBit;
  }

  lemma {:induction false} DroplessAccepts(k: State, events: seq<Event>)
    requires Dropless(k, events)
    ensures Run(k, events).accepted == k.accepted + Inserted(events)
    decreases |events|
  {
    if events != [] {
      StepAccepts(k, events[0]);
      hide Step, InsertedBy;
      DroplessAccepts(Step(k, events[0]), events[1..]);
      Associative(k.accepted, InsertedBy(events[0]), Inserted(events[1..]));
    }
  }

  /** In any interleaving that drops nothing, what was polled and what is queued is what was inserted. */
  lemma Delivery(k: State, events: seq<Event>)
    requires Inv(k) && k.queue == [] && Dropless(k, events)
    ensures Polled(k, events) + Run(k, events).queue == Inserted(events)
  {
    hide Step, PolledNow, InsertedBy, Reply;
    var r := Run(k, events);
    RunKeepsInv(k, events);
    PolledArePopped(k, events);
    DroplessAccepts(k, events);
    assert k.accepted == k.popped;
    Associative(k.popped, Polled(k, events), r.queue);
    SamePrefix(k.popped, Polled(k, events) + r.queue, Inserted(events));
  }

  // ----- a consumer that acts on the replies it gets

  /** The replies to the data reads a consumer makes after a status reply of its own that had FI set. */
  function Heard(k: State, events: seq<Event>, seen: bool): seq<byte>
    decreases |events|
  {
    if events == [] then []
    else
      var next := Step(k, events[0]);
      if events[0] == Read(0x64) then Heard(next, events[1..], Reply(k, 0x64) % 2 == 1)
      else if events[0] == Read(0x60) then
        (if seen then [Reply(k, 0x60)] else []) + Heard(next, events[1..], false)
      else Heard(next, events[1..], seen)
  }

  /** It reads data only then. */
  predicate Patient(k: State, events: seq<Event>, seen: bool)
    decreases |events|
  {
    events != [] ==>
      var next := Step(k, events[0]);
      if events[0] == Read(0x64) then Patient(next, events[1..], Reply(k, 0x64) % 2 == 1)
      else if events[0] == Read(0x60) then seen && Patient(next, events[1..], false)
      else Patient(next, events[1..], seen)
  }

  /** Whatever is inserted or written in between, what a patient consumer hears is what is taken from the queue. */
  lemma {:induction false} HeardArePolled(k: State, events: seq<Event>, seen: bool)
    requires Inv(k) && (seen ==> k.queue != []) && Patient(k, events, seen)
    ensures Heard(k, events, seen) == Polled(k, events)
    decreases |events|
  {
    if events != [] {
      var (e, next) := (events[0], Step(k, events[0]));
      StatusTells(k);
      StepKeepsInv(k, e);
      HeardArePolled(next, events[1..],
        if e == Read(0x64) then Reply(k, 0x64) % 2 == 1 else if e == Read(0x60) then false else seen);
    }
  }

  lemma SamePrefix(p: seq<byte>, a: seq<byte>, b: seq<byte>)
    requires p + a == p + b
    ensures a == b
  {
    assert (p + a)[|p|..] == a && (p + b)[|p|..] == b;
  }
}
