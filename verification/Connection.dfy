/** The connection of TcpConnection.h as a state machine. What the kernel does is an argument of
    each step: how many bytes a write moves, what a read brings. */
module ConnectionSpec {
  import opened EventMask
  import opened BufferSpec

  datatype ConnState = DIS_CONNECTED | CONNECTING | CONNECTED | DIS_CONNECTING

  /** The moment at which the write side was shut: what had been handed to the kernel, and what
      had been accepted for sending. */
  datatype Shut = Shut(wire: seq<Byte>, accepted: seq<Byte>)

  /** Besides its fields, the history of the connection: the bytes accepted by `send`, the bytes
      handed to the kernel, the calls of `shutdown`, the bytes read from the kernel, and those
      of them that the user has taken from the input buffer. */
  datatype Conn = Conn(
    state: ConnState,
    events: Mask,
    input: Buf,
    output: Buf,
    accepted: seq<Byte>,
    wire: seq<Byte>,
    shuts: seq<Shut>,
    received: seq<Byte>,
    consumed: seq<Byte>)

  /** The result of a write: the number of bytes the kernel took, or an error. */
  datatype WriteResult = WriteError | Wrote(n: nat)

  /** The result of a read: an error, the end of the stream, or bytes. */
  datatype ReadResult = ReadError | EndOfStream | Got(bytes: seq<Byte>)

  predicate ValidBuffers(c: Conn) {
    Valid(c.input) && Valid(c.output)
  }

  function Pending(c: Conn): seq<Byte>
    requires ValidBuffers(c)
  {
    Readable(c.output)
  }

  function New(): Conn {
    Conn(CONNECTING, 0, BufferSpec.New(), BufferSpec.New(), [], [], [], [], [])
  }

  function ShutDownWrite(c: Conn): Conn {
    if !IsWriting(c.events) then c.(shuts := c.shuts + [Shut(c.wire, c.accepted)]) else c
  }

  function ShutDown(c: Conn): Conn {
    if c.state == CONNECTED then ShutDownWrite(c.(state := DIS_CONNECTING)) else c
  }

  function Close(c: Conn): Conn {
    c.(events := 0, state := DIS_CONNECTED)
  }

  function Start(c: Conn): Conn {
    c.(state := CONNECTED, events := Reading(c.events))
  }

  predicate WritesDirectly(c: Conn)
    requires ValidBuffers(c)
  {
    c.state != DIS_CONNECTED && !IsWriting(c.events) && Pending(c) == []
  }

  /** What `send` does with the bytes that it leaves for later. */
  function Queue(c: Conn, bytes: seq<Byte>): (r: Conn)
    requires ValidBuffers(c)
    ensures ValidBuffers(r) && Pending(r) == Pending(c) + bytes
    ensures r.(output := c.output, events := c.events) == c
  {
    c.(output := AppendData(c.output, bytes),
       events := if IsWriting(c.events) then c.events else Writing(c.events))
  }

  /** `send`, with the result of the direct write if there is one. The result is kept in an
      unsigned variable, so the branch for errors is not taken, and after an error the data is
      queued with the byte ahead of it in memory, `before`. */
  function Send(c: Conn, data: seq<Byte>, result: WriteResult, before: Byte): Conn
    requires ValidBuffers(c) && (result.Wrote? ==> result.n <= |data|)
  {
    if c.state == DIS_CONNECTED then c
    else
      var c1 := c.(accepted := c.accepted + data);
      if !WritesDirectly(c) then
        if data != [] then Queue(c1, data) else c1
      else
        match result
        case WriteError => Queue(c1, [before] + data)
        case Wrote(n) =>
          var c2 := c1.(wire := c.wire + data[..n]);
          if n < |data| then Queue(c2, data[n..]) else c2
  }

  function HandleWrite(c: Conn, result: WriteResult): Conn
    requires ValidBuffers(c) && (IsWriting(c.events) && result.Wrote? ==> result.n <= |Pending(c)|)
  {
    if IsWriting(c.events) && result.Wrote? then
      var c1 := c.(wire := c.wire + Pending(c)[..result.n], output := Retrieve(c.output, result.n));
      if c1.output.write - c1.output.read == 0 then
        var c2 := c1.(events := NotWriting(c1.events));
        if c2.state == DIS_CONNECTING then ShutDownWrite(c2) else c2
      else c1
    else c
  }

  function HandleRead(c: Conn, result: ReadResult): Conn
    requires ValidBuffers(c) && (result.Got? ==> |result.bytes| <= Writable(c.input) + EXTRA_SIZE)
  {
    match result
    case ReadError => c
    case EndOfStream => Close(c)
    case Got(bytes) => c.(input := Receive(c.input, bytes), received := c.received + bytes)
  }

  /** `GetBuffer()->Retrieve(n)`, as the message callback does with what it has dealt with. */
  function Consume(c: Conn, n: nat): Conn
    requires ValidBuffers(c)
  {
    var unread := Readable(c.input);
    c.(input := Retrieve(c.input, n), consumed := c.consumed + if n < |unread| then unread[..n] else unread)
  }

  /** `Handler::HandleEvent` with the callbacks of the connection: reading comes first. There is
      no error callback. */
  function HandleEvent(c: Conn, trigger: Mask, read: ReadResult, write: WriteResult): Conn
    requires ValidBuffers(c) && (read.Got? ==> |read.bytes| <= Writable(c.input) + EXTRA_SIZE)
    requires IsWriting(c.events) && write.Wrote? ==> write.n <= |Pending(c)|
  {
    var c1 := if trigger & (EPOLLIN | EPOLLHUP | EPOLLPRI) != 0 then HandleRead(c, read) else c;
    if trigger & EPOLLOUT != 0 then HandleWrite(c1, write) else c1
  }

  // ----- Runs -----

  /** EPOLLIN, EPOLLPRI and EPOLLHUP. */
  const READABLE: Mask := 0x13

  datatype Op =
    | Sending(data: seq<Byte>, result: WriteResult, before: Byte)
    | Event(trigger: Mask, read: ReadResult, write: WriteResult)
    | Consuming(n: nat)
    | ShuttingDown
    | Closing
    | Starting

  /** What the kernel can do: it takes no more than it is offered, and nothing once the write
      side has been shut. */
  predicate Possible(c: Conn, op: Op) {
    ValidBuffers(c) &&
    match op
    case Sending(data, result, before) =>
      result.Wrote? ==> result.n <= |data| && (WritesDirectly(c) ==> c.shuts == [])
    case Event(trigger, read, write) =>
      && (read.Got? ==> |read.bytes| <= Writable(c.input) + EXTRA_SIZE)
      && (IsWriting(c.events) && write.Wrote? ==> write.n <= |Pending(c)| && c.shuts == [])
    case _ => true
  }

  function Step(c: Conn, op: Op): Conn
    requires Possible(c, op)
  {
    match op
    case Sending(data, result, before) => Send(c, data, result, before)
    case Event(trigger, read, write) => HandleEvent(c, trigger, read, write)
    case Consuming(n) => Consume(c, n)
    case ShuttingDown => ShutDown(c)
    case Closing => Close(c)
    case Starting => Start(c)
  }

  predicate PossibleRun(c: Conn, ops: seq<Op>)
    decreases |ops|
  {
    ops != [] ==> Possible(c, ops[0]) && PossibleRun(Step(c, ops[0]), ops[1..])
  }

  function Run(c: Conn, ops: seq<Op>): Conn
    requires PossibleRun(c, ops)
    decreases |ops|
  {
    if ops == [] then c else Run(Step(c, ops[0]), ops[1..])
  }

  /** A send whose direct write fails. */
  predicate DirectWriteFails(c: Conn, op: Op)
    requires ValidBuffers(c)
  {
    op.Sending? && WritesDirectly(c) && op.result.WriteError?
  }

  /** A start of a connection that was closed with bytes pending. */
  predicate StartsOverPending(c: Conn, op: Op)
    requires ValidBuffers(c)
  {
    op.Starting? && c.state == DIS_CONNECTED && Pending(c) != []
  }

  /** The bytes that an operation is asked to send and does not refuse. */
  function Accepts(c: Conn, op: Op): seq<Byte> {
    if op.Sending? && c.state != DIS_CONNECTED then op.data else []
  }

  /** The bytes that it puts on their way: a direct write that fails puts a stray byte first. */
  function Gives(c: Conn, op: Op): seq<Byte>
    requires ValidBuffers(c)
  {
    (if DirectWriteFails(c, op) then [op.before] else []) + Accepts(c, op)
  }

  function Sent(c: Conn, ops: seq<Op>): seq<Byte>
    requires PossibleRun(c, ops)
    decreases |ops|
  {
    if ops == [] then [] else Accepts(c, ops[0]) + Sent(Step(c, ops[0]), ops[1..])
  }

  function SentWithStrays(c: Conn, ops: seq<Op>): seq<Byte>
    requires PossibleRun(c, ops)
    decreases |ops|
  {
    if ops == [] then [] else Gives(c, ops[0]) + SentWithStrays(Step(c, ops[0]), ops[1..])
  }

  /** The bytes that the reads of a run bring. */
  function Arrived(ops: seq<Op>): seq<Byte>
    decreases |ops|
  {
    if ops == [] then [] else Brings(ops[0]) + Arrived(ops[1..])
  }

  function Brings(op: Op): seq<Byte> {
    if op.Event? && op.trigger & READABLE != 0 && op.read.Got? then op.read.bytes else []
  }

  /** How many direct writes of a run fail. */
  function Failures(c: Conn, ops: seq<Op>): nat
    requires PossibleRun(c, ops)
    decreases |ops|
  {
    if ops == [] then 0 else (if DirectWriteFails(c, ops[0]) then 1 else 0) + Failures(Step(c, ops[0]), ops[1..])
  }

  // ----- What every step keeps -----

  /** Read interest is on between a start and a close; write interest is on exactly while bytes
      are pending, unless closed. */
  predicate Orderly(c: Conn) {
    && ValidBuffers(c)
    && (c.state != DIS_CONNECTED ==> (IsWriting(c.events) <==> Pending(c) != []))
    && (IsReading(c.events) <==> c.state == CONNECTED || c.state == DIS_CONNECTING)
    && (c.state == DIS_CONNECTED ==> c.events == 0)
  }

  /** Nothing is lost, reordered or made up, either way; the write side was only ever shut with
      everything handed over. */
  predicate Delivers(c: Conn)
    requires ValidBuffers(c)
  {
    && c.accepted == c.wire + Pending(c)
    && c.received == c.consumed + Readable(c.input)
    && forall s :: s in c.shuts ==> s.wire == s.accepted
  }

  predicate Invariant(c: Conn) {
    Orderly(c) && Delivers(c)
  }

  /** An operation that is neither of the two that break the invariant. */
  predicate Sound(c: Conn, op: Op)
    requires ValidBuffers(c)
  {
    !DirectWriteFails(c, op) && !StartsOverPending(c, op)
  }

  predicate SoundRun(c: Conn, ops: seq<Op>)
    requires PossibleRun(c, ops)
    decreases |ops|
  {
    ops != [] ==> Sound(c, ops[0]) && SoundRun(Step(c, ops[0]), ops[1..])
  }

  /** The invariant holds in every state that a run passes through. */
  predicate HoldsThroughout(c: Conn, ops: seq<Op>)
    requires PossibleRun(c, ops)
    decreases |ops|
  {
    Invariant(c) && (ops != [] ==> HoldsThroughout(Step(c, ops[0]), ops[1..]))
  }

  lemma RetrieveDropsFront(b: Buf, n: nat)
    requires Valid(b) && n <= |Readable(b)|
    ensures Valid(Retrieve(b, n)) && Readable(b) == Readable(b)[..n] + Readable(Retrieve(b, n))
    ensures |Readable(Retrieve(b, n))| == |Readable(b)| - n
  {
  }

  /** In any state whatever, what `send` hands over and leaves pending is what it gives. */
  lemma SendGives(c: Conn, data: seq<Byte>, result: WriteResult, before: Byte)
    requires ValidBuffers(c) && (result.Wrote? ==> result.n <= |data|)
    ensures var r, op := Send(c, data, result, before), Sending(data, result, before);
            && ValidBuffers(r) && r.wire + Pending(r) == c.wire + Pending(c) + Gives(c, op)
            && r.accepted == c.accepted + Accepts(c, op)
            && r.input == c.input && r.received == c.received && r.consumed == c.consumed
            && r.state == c.state && r.shuts == c.shuts
  {
    hide IsWriting, Queue, Readable;
    if result.Wrote? {
      assert data == data[..result.n] + data[result.n..];
    }
  }

  /** A send turns write interest on when it leaves bytes pending, also when its write fails. */
  lemma SendIsOrderly(c: Conn, data: seq<Byte>, result: WriteResult, before: Byte)
    requires Orderly(c) && (result.Wrote? ==> result.n <= |data|)
    ensures Orderly(Send(c, data, result, before))
  {
    hide IsReading, IsWriting, Writing, AppendData, Readable;
    WriteInterest(c.events);
    WriteBitKeepsReading(c.events);
  }

  lemma SendKeepsExactly(c: Conn, data: seq<Byte>, result: WriteResult, before: Byte)
    requires Invariant(c) && (result.Wrote? ==> result.n <= |data|)
    ensures Invariant(Send(c, data, result, before)) <==> !(WritesDirectly(c) && result.WriteError?)
  {
    SendGives(c, data, result, before);
    hide Orderly, Send, WritesDirectly;
    SendIsOrderly(c, data, result, before);
    var op := Sending(data, result, before);
    if WritesDirectly(c) && result.WriteError? {
      assert |Gives(c, op)| != |Accepts(c, op)|;
    } else {
      assert Gives(c, op) == Accepts(c, op);
      assert c.wire + Pending(c) + Gives(c, op) == c.accepted + Accepts(c, op);
    }
  }

  /** In any state with write interest, what the kernel takes goes from the front of the pending
      bytes to the wire, and interest is dropped when none are left; without interest, or after
      an error, nothing happens. */
  lemma WriteDelivers(c: Conn, result: WriteResult)
    requires ValidBuffers(c) && (IsWriting(c.events) && result.Wrote? ==> result.n <= |Pending(c)|)
    ensures var r := HandleWrite(c, result);
            if IsWriting(c.events) && result.Wrote? then
              && ValidBuffers(r)
              && r.wire == c.wire + Pending(c)[..result.n] && Pending(r) == Pending(c)[result.n..]
              && (IsWriting(r.events) <==> Pending(r) != [])
            else r == c
  {
    hide IsWriting, NotWriting;
    WriteInterest(c.events);
    if IsWriting(c.events) && result.Wrote? {
      RetrieveDropsFront(c.output, result.n);
    }
  }

  lemma HandleWriteGives(c: Conn, result: WriteResult)
    requires ValidBuffers(c) && (IsWriting(c.events) && result.Wrote? ==> result.n <= |Pending(c)|)
    ensures var r := HandleWrite(c, result);
            && ValidBuffers(r) && r.wire + Pending(r) == c.wire + Pending(c)
            && r.accepted == c.accepted && r.state == c.state
            && r.input == c.input && r.received == c.received && r.consumed == c.consumed
            && (r.shuts != c.shuts ==> Pending(r) == [] && r.shuts == c.shuts + [Shut(r.wire, r.accepted)])
  {
    hide IsWriting, NotWriting;
    if IsWriting(c.events) && result.Wrote? {
      RetrieveDropsFront(c.output, result.n);
      assert Pending(HandleWrite(c, result)) == Readable(Retrieve(c.output, result.n));
    }
  }

  lemma HandleWriteIsOrderly(c: Conn, result: WriteResult)
    requires Orderly(c) && (IsWriting(c.events) && result.Wrote? ==> result.n <= |Pending(c)|)
    ensures Orderly(HandleWrite(c, result))
  {
    hide IsReading, IsWriting, NotWriting;
    WriteInterest(c.events);
    WriteBitKeepsReading(c.events);
    if IsWriting(c.events) && result.Wrote? {
      RetrieveDropsFront(c.output, result.n);
    }
  }

  lemma HandleWriteKeeps(c: Conn, result: WriteResult)
    requires Invariant(c) && (IsWriting(c.events) && result.Wrote? ==> result.n <= |Pending(c)|)
    ensures Invariant(HandleWrite(c, result))
  {
    HandleWriteGives(c, result);
    hide Orderly, HandleWrite;
    HandleWriteIsOrderly(c, result);
  }

  /** A read puts the bytes it brings at the end of the input, and changes nothing else; one that
      brings none changes nothing, unless it ends the stream. */
  lemma ReadDelivers(c: Conn, result: ReadResult)
    requires ValidBuffers(c) && (result.Got? ==> |result.bytes| <= Writable(c.input) + EXTRA_SIZE)
    ensures var r := HandleRead(c, result);
            && ValidBuffers(r)
            && (result.Got? ==>
                  && Readable(r.input) == Readable(c.input) + result.bytes
                  && r.received == c.received + result.bytes
                  && r.(input := c.input, received := c.received) == c)
            && (result.ReadError? ==> r == c)
            && (result.EndOfStream? ==>
                  r.state == DIS_CONNECTED && r.events == 0 && r.(state := c.state, events := c.events) == c)
  {
  }

  lemma HandleReadGives(c: Conn, result: ReadResult)
    requires ValidBuffers(c) && (result.Got? ==> |result.bytes| <= Writable(c.input) + EXTRA_SIZE)
    ensures var r := HandleRead(c, result);
            && ValidBuffers(r) && r.output == c.output && r.wire == c.wire && r.accepted == c.accepted
            && r.shuts == c.shuts
            && ((r.state == c.state && r.events == c.events) || (r.state == DIS_CONNECTED && r.events == 0))
    ensures Orderly(c) ==> Orderly(HandleRead(c, result))
    ensures !result.EndOfStream? ==> HandleRead(c, result).state == c.state
  {
  }

  lemma HandleReadKeeps(c: Conn, result: ReadResult)
    requires Invariant(c) && (result.Got? ==> |result.bytes| <= Writable(c.input) + EXTRA_SIZE)
    ensures Invariant(HandleRead(c, result))
  {
    ReadDelivers(c, result);
    HandleReadGives(c, result);
    hide Orderly, HandleRead, Readable;
  }

  /** Taking input bytes takes them from the front, as many as there are. */
  lemma ConsumeTakes(c: Conn, n: nat)
    requires ValidBuffers(c)
    ensures var r, unread := Consume(c, n), Readable(c.input);
            var k := if n < |unread| then n else |unread|;
            && ValidBuffers(r) && r.(input := c.input, consumed := c.consumed) == c
            && r.consumed == c.consumed + unread[..k] && Readable(r.input) == unread[k..]
  {
    if n < |Readable(c.input)| {
      RetrieveDropsFront(c.input, n);
    }
  }

  lemma EventOrder(c: Conn, op: Op)
    requires Possible(c, op) && op.Event?
    ensures var c1 := if op.trigger & READABLE != 0 then HandleRead(c, op.read) else c;
            Step(c, op) == if op.trigger & EPOLLOUT != 0 then HandleWrite(c1, op.write) else c1
  {
    hide HandleRead, HandleWrite;
    assert EPOLLIN | EPOLLHUP | EPOLLPRI == READABLE;
  }

  /** An event delivers what its read brings, whatever it also writes. */
  lemma EventDelivers(c: Conn, op: Op)
    requires Possible(c, op) && op.Event?
    ensures var r := Step(c, op);
            && ValidBuffers(r)
            && r.received == c.received + Brings(op) && r.consumed == c.consumed
            && Readable(r.input) == Readable(c.input) + Brings(op)
            && (op.trigger & READABLE == 0 ==> r.input == c.input)
  {
    WriteInterest(c.events);
    hide IsWriting, HandleRead, HandleWrite, Readable, HandleEvent;
    EventOrder(c, op);
    ReadDelivers(c, op.read);
    HandleReadGives(c, op.read);
    HandleWriteGives(c, op.write);
    HandleWriteGives(HandleRead(c, op.read), op.write);
  }

  lemma EventGives(c: Conn, op: Op)
    requires Possible(c, op) && op.Event?
    ensures var r := Step(c, op);
            ValidBuffers(r) && r.wire + Pending(r) == c.wire + Pending(c) && r.accepted == c.accepted
  {
    WriteInterest(c.events);
    hide IsWriting, HandleRead, HandleWrite, Readable, HandleEvent;
    EventOrder(c, op);
    HandleReadGives(c, op.read);
    HandleWriteGives(c, op.write);
    HandleWriteGives(HandleRead(c, op.read), op.write);
  }

  lemma EventKeeps(c: Conn, op: Op)
    requires Possible(c, op) && op.Event?
    ensures Orderly(c) ==> Orderly(Step(c, op))
    ensures Invariant(c) ==> Invariant(Step(c, op))
  {
    WriteInterest(c.events);
    assert Orderly(c) ==> ValidBuffers(c);
    HandleReadGives(c, op.read);
    EventOrder(c, op);
    hide Orderly, Delivers, IsWriting, HandleRead, HandleWrite, HandleEvent, Readable;
    if Orderly(c) {
      HandleWriteIsOrderly(c, op.write);
      HandleWriteIsOrderly(HandleRead(c, op.read), op.write);
    }
    if Invariant(c) {
      HandleReadKeeps(c, op.read);
      HandleWriteKeeps(c, op.write);
      HandleWriteKeeps(HandleRead(c, op.read), op.write);
    }
  }

  /** Whatever happens, what has been handed over and is pending is what was given, and what has
      been taken and is unread is what was brought, in order. */
  lemma StepGives(c: Conn, op: Op)
    requires Possible(c, op)
    ensures var r := Step(c, op);
            && ValidBuffers(r) && r.wire + Pending(r) == c.wire + Pending(c) + Gives(c, op)
            && r.accepted == c.accepted + Accepts(c, op)
            && r.received == c.received + Brings(op)
            && r.consumed + Readable(r.input) == c.consumed + Readable(c.input) + Brings(op)
  {
    hide HandleEvent, Send, Consume, Readable, WritesDirectly;
    match op
    case Sending(data, result, before) => SendGives(c, data, result, before);
    case Event(trigger, read, write) => EventGives(c, op); EventDelivers(c, op);
    case Consuming(n) => ConsumeTakes(c, n);
    case ShuttingDown =>
    case Closing =>
    case Starting =>
  }

  lemma OrderlyStart(c: Conn)
    requires Orderly(c)
    ensures Orderly(Start(c)) <==> !StartsOverPending(c, Starting)
  {
    hide IsReading, IsWriting, Readable, Reading;
    WriteInterest(c.events);
    ReadInterest(c.events);
  }

  /** Interest stays right at every step but one: a start over pending bytes. */
  lemma OrderlyExactly(c: Conn, op: Op)
    requires Orderly(c) && Possible(c, op)
    ensures Orderly(Step(c, op)) <==> !StartsOverPending(c, op)
  {
    hide IsReading, IsWriting, HandleEvent, Send, Consume, Readable, Start;
    WriteInterest(c.events);
    ReadInterest(c.events);
    match op
    case Sending(data, result, before) => SendIsOrderly(c, data, result, before);
    case Event(trigger, read, write) => EventKeeps(c, op);
    case Consuming(n) => ConsumeTakes(c, n);
    case ShuttingDown =>
    case Closing =>
    case Starting => OrderlyStart(c);
  }

  lemma StepKeepsExactly(c: Conn, op: Op)
    requires Invariant(c) && Possible(c, op)
    ensures Invariant(Step(c, op)) <==> Sound(c, op)
  {
    OrderlyExactly(c, op);
    StepGives(c, op);
    hide HandleEvent, Send, Consume, Readable, IsReading, Reading;
    match op
    case Sending(data, result, before) => SendKeepsExactly(c, data, result, before);
    case Event(trigger, read, write) => EventKeeps(c, op);
    case Consuming(n) => ConsumeTakes(c, n);
    case ShuttingDown =>
    case Closing =>
    case Starting =>
  }

  /** All bytes given by a run are handed over or pending at its end, in order, none twice. */
  lemma {:induction false} RunGives(c: Conn, ops: seq<Op>)
    requires ValidBuffers(c) && PossibleRun(c, ops)
    ensures var r := Run(c, ops);
            && ValidBuffers(r) && r.wire + Pending(r) == c.wire + Pending(c) + SentWithStrays(c, ops)
            && r.accepted == c.accepted + Sent(c, ops)
            && r.received == c.received + Arrived(ops)
            && r.consumed + Readable(r.input) == c.consumed + Readable(c.input) + Arrived(ops)
    ensures |SentWithStrays(c, ops)| == |Sent(c, ops)| + Failures(c, ops)
    decreases |ops|
  {
    hide Step, Possible, Readable, WritesDirectly;
    if ops != [] {
      StepGives(c, ops[0]);
      RunGives(Step(c, ops[0]), ops[1..]);
    }
  }

  lemma {:induction false} RunKeepsExactly(c: Conn, ops: seq<Op>)
    requires Invariant(c) && PossibleRun(c, ops)
    ensures HoldsThroughout(c, ops) <==> SoundRun(c, ops)
    ensures SoundRun(c, ops) ==> Invariant(Run(c, ops))
    decreases |ops|
  {
    assert ValidBuffers(c);
    hide Step, Possible, Orderly, Delivers, Sound;
    if ops != [] {
      StepKeepsExactly(c, ops[0]);
      if Sound(c, ops[0]) {
        RunKeepsExactly(Step(c, ops[0]), ops[1..]);
      }
    }
  }

  /** Over any interleaving of sends, events with partial or failed writes, consumption of input,
      half-closes, closes and starts: the invariant holds throughout exactly when no direct write
      fails and no start finds bytes left over from a close. In every reachable state the bytes
      handed to the kernel, followed by those pending, are the bytes sent with the stray bytes
      among them: they are the bytes sent exactly when no direct write has failed. The bytes
      taken from the input, followed by those unread, are always the bytes the reads brought. */
  lemma ReachableStates(ops: seq<Op>)
    requires PossibleRun(New(), ops)
    ensures HoldsThroughout(New(), ops) <==> SoundRun(New(), ops)
    ensures var c := Run(New(), ops);
            && ValidBuffers(c)
            && c.wire + Pending(c) == SentWithStrays(New(), ops)
            && c.accepted == Sent(New(), ops)
            && (c.wire + Pending(c) == Sent(New(), ops) <==> Failures(New(), ops) == 0)
            && c.consumed + Readable(c.input) == Arrived(ops) == c.received
  {
    RunKeepsExactly(New(), ops);
    RunGives(New(), ops);
    NoFailureNoStray(New(), ops);
  }

  lemma {:induction false} NoFailureNoStray(c: Conn, ops: seq<Op>)
    requires PossibleRun(c, ops)
    ensures Failures(c, ops) == 0 ==> SentWithStrays(c, ops) == Sent(c, ops)
    decreases |ops|
  {
    hide Step, Possible, DirectWriteFails;
    if ops != [] {
      NoFailureNoStray(Step(c, ops[0]), ops[1..]);
    }
  }

  lemma NewIsInvariant()
    ensures Invariant(New())
  {
  }

  /** A connection just started writes directly. */
  lemma IdleStart()
    ensures var c := Start(New());
            && Invariant(c) && c.state == CONNECTED && WritesDirectly(c)
            && c.wire == [] && c.accepted == [] && c.shuts == []
  {
    NewIsInvariant();
    StepKeepsExactly(New(), Starting);
    WriteInterest(0);
    assert Pending(New()) == [];
    hide IsReading, IsWriting, Reading;
  }

  /** What the functions over runs say of a first operation and the rest. */
  lemma OneStep(c: Conn, op: Op, rest: seq<Op>)
    ensures PossibleRun(c, [op] + rest) <==> Possible(c, op) && PossibleRun(Step(c, op), rest)
    ensures PossibleRun(c, [op] + rest) ==>
      var ops := [op] + rest;
      && Run(c, ops) == Run(Step(c, op), rest)
      && Failures(c, ops) == (if DirectWriteFails(c, op) then 1 else 0) + Failures(Step(c, op), rest)
      && (SoundRun(c, ops) <==> Sound(c, op) && SoundRun(Step(c, op), rest))
  {
    assert ([op] + rest)[1..] == rest;
    hide Step, Possible, DirectWriteFails, Sound;
  }

  /** The first send of a connection, when its write fails: a byte that was never sent goes first. */
  lemma FailedSend(data: seq<Byte>, before: Byte)
    ensures var ops := [Starting, Sending(data, WriteError, before)];
            && PossibleRun(New(), ops) && Failures(New(), ops) == 1
            && var c := Run(New(), ops);
               && ValidBuffers(c) && c.accepted == data && c.wire == [] && Pending(c) == [before] + data
               && !Invariant(c)
  {
    var c := Start(New());
    var op := Sending(data, WriteError, before);
    IdleStart();
    SendKeepsExactly(c, data, WriteError, before);
    SendGives(c, data, WriteError, before);
    assert Gives(c, op) == [before] + data;
    hide AppendData, Orderly, Delivers, Readable, Start;
    OneStep(New(), Starting, [op]);
    OneStep(c, op, []);
    assert [Starting, op] == [Starting] + [op] && [op] == [op] + [];
  }

  /** Starting keeps the invariant except after a close that left bytes pending: there it takes
      the connection for one with nothing to write. */
  lemma StartKeepsExactly(c: Conn)
    requires Invariant(c)
    ensures Invariant(Start(c)) <==> c.state != DIS_CONNECTED || Pending(c) == []
  {
  }

  /** Shutting the write side directly, not through `ShutDown`, is safe on the same condition. */
  lemma ShutDownWriteKeepsExactly(c: Conn)
    requires Invariant(c)
    ensures Invariant(ShutDownWrite(c)) <==> c.state != DIS_CONNECTED || Pending(c) == []
  {
  }

  lemma PartialSend(data: seq<Byte>, n: nat, before: Byte)
    requires n < |data|
    ensures Possible(New(), Starting) && Sound(New(), Starting)
    ensures var c, op := Step(New(), Starting), Sending(data, Wrote(n), before);
            && Possible(c, op) && Sound(c, op)
            && Invariant(Step(c, op)) && Pending(Step(c, op)) == data[n..]
  {
    IdleStart();
    SendKeepsExactly(Start(New()), data, Wrote(n), before);
    hide AppendData;
  }

  lemma CloseOverPending(c: Conn)
    requires Invariant(c) && Pending(c) != []
    ensures Possible(c, Closing) && Sound(c, Closing)
    ensures var r := Step(c, Closing);
            Invariant(r) && r.state == DIS_CONNECTED && Pending(r) == Pending(c)
            && !Invariant(Start(r)) && !Invariant(ShutDownWrite(r))
  {
    StepKeepsExactly(c, Closing);
    hide Orderly;
    StartKeepsExactly(Close(c));
    ShutDownWriteKeepsExactly(Close(c));
  }

  /** A close after a partial write leaves such a state. */
  lemma ClosedWithPending(data: seq<Byte>, n: nat, before: Byte)
    requires n < |data|
    ensures var ops := [Starting, Sending(data, Wrote(n), before), Closing];
            && PossibleRun(New(), ops) && SoundRun(New(), ops)
            && var c := Run(New(), ops);
               && Invariant(c) && c.state == DIS_CONNECTED && Pending(c) == data[n..]
               && !Invariant(Start(c)) && !Invariant(ShutDownWrite(c))
  {
    hide New, Step, Possible, Sound, Invariant, Readable, ShutDownWrite, Start;
    PartialSend(data, n, before);
    var c, op := Step(New(), Starting), Sending(data, Wrote(n), before);
    CloseOverPending(Step(c, op));
    OneStep(New(), Starting, [op, Closing]);
    OneStep(c, op, [Closing]);
    OneStep(Step(c, op), Closing, []);
    assert [Starting, op, Closing] == [Starting] + [op, Closing] && [op, Closing] == [op] + [Closing]
      && [Closing] == [Closing] + [];
  }

  // ----- The connection as queues -----

  /** A connection without buffers and masks: two queues of bytes, and what it is interested in. */
  datatype Flow = Flow(
    state: ConnState,
    wantsRead: bool,
    wantsWrite: bool,
    unread: seq<Byte>,
    pending: seq<Byte>,
    accepted: seq<Byte>,
    wire: seq<Byte>,
    shuts: seq<Shut>,
    received: seq<Byte>,
    consumed: seq<Byte>)

  function AsFlow(c: Conn): Flow
    requires ValidBuffers(c)
  {
    Flow(c.state, IsReading(c.events), IsWriting(c.events), Readable(c.input), Pending(c), c.accepted, c.wire,
         c.shuts, c.received, c.consumed)
  }

  function AtMost(n: nat, bytes: seq<Byte>): nat {
    if n < |bytes| then n else |bytes|
  }

  /** The front of the data goes out if nothing waits, the rest waits its turn. */
  function FlowSend(f: Flow, data: seq<Byte>, result: WriteResult, before: Byte): Flow {
    if f.state == DIS_CONNECTED then f
    else
      var direct := !f.wantsWrite && f.pending == [];
      var n := if direct && result.Wrote? then AtMost(result.n, data) else 0;
      var late := (if direct && result.WriteError? then [before] else []) + data[n..];
      f.(accepted := f.accepted + data, wire := f.wire + data[..n], pending := f.pending + late,
         wantsWrite := f.wantsWrite || late != [])
  }

  function FlowRead(f: Flow, result: ReadResult): Flow {
    match result
    case ReadError => f
    case EndOfStream => f.(state := DIS_CONNECTED, wantsRead := false, wantsWrite := false)
    case Got(bytes) => f.(unread := f.unread + bytes, received := f.received + bytes)
  }

  function FlowWrite(f: Flow, result: WriteResult): Flow {
    if !f.wantsWrite || result.WriteError? then f
    else
      var n := AtMost(result.n, f.pending);
      var wire, rest := f.wire + f.pending[..n], f.pending[n..];
      f.(wire := wire, pending := rest, wantsWrite := rest != [],
         shuts := f.shuts + if rest == [] && f.state == DIS_CONNECTING then [Shut(wire, f.accepted)] else [])
  }

  function FlowStep(f: Flow, op: Op): Flow {
    match op
    case Sending(data, result, before) => FlowSend(f, data, result, before)
    case Event(trigger, read, write) =>
      var g := if trigger & READABLE != 0 then FlowRead(f, read) else f;
      if trigger & EPOLLOUT != 0 then FlowWrite(g, write) else g
    case Consuming(n) =>
      var k := AtMost(n, f.unread);
      f.(unread := f.unread[k..], consumed := f.consumed + f.unread[..k])
    case ShuttingDown =>
      if f.state != CONNECTED then f
      else f.(state := DIS_CONNECTING, shuts := f.shuts + if f.wantsWrite then [] else [Shut(f.wire, f.accepted)])
    case Closing => f.(state := DIS_CONNECTED, wantsRead := false, wantsWrite := false)
    case Starting => f.(state := CONNECTED, wantsRead := true)
  }

  function FlowRun(f: Flow, ops: seq<Op>): Flow
    decreases |ops|
  {
    if ops == [] then f else FlowRun(FlowStep(f, ops[0]), ops[1..])
  }

  lemma SendIsFlow(c: Conn, data: seq<Byte>, result: WriteResult, before: Byte)
    requires ValidBuffers(c) && (result.Wrote? ==> result.n <= |data|)
    ensures ValidBuffers(Send(c, data, result, before))
    ensures AsFlow(Send(c, data, result, before)) == FlowSend(AsFlow(c), data, result, before)
  {
    hide IsReading, IsWriting, Writing, AppendData, Readable;
    WriteInterest(c.events);
    WriteBitKeepsReading(c.events);
  }

  lemma ReadIsFlow(c: Conn, result: ReadResult)
    requires ValidBuffers(c) && (result.Got? ==> |result.bytes| <= Writable(c.input) + EXTRA_SIZE)
    ensures ValidBuffers(HandleRead(c, result)) && AsFlow(HandleRead(c, result)) == FlowRead(AsFlow(c), result)
  {
    ReadDelivers(c, result);
    hide IsReading, IsWriting, Readable, HandleRead;
    WriteInterest(c.events);
    ReadInterest(c.events);
  }

  lemma WriteIsFlow(c: Conn, result: WriteResult)
    requires ValidBuffers(c) && (IsWriting(c.events) && result.Wrote? ==> result.n <= |Pending(c)|)
    ensures ValidBuffers(HandleWrite(c, result)) && AsFlow(HandleWrite(c, result)) == FlowWrite(AsFlow(c), result)
  {
    WriteDelivers(c, result);
    hide IsReading, IsWriting, NotWriting, Readable, Retrieve;
    WriteInterest(c.events);
    WriteBitKeepsReading(c.events);
  }

  lemma EventIsFlow(c: Conn, op: Op)
    requires Possible(c, op) && op.Event?
    ensures ValidBuffers(Step(c, op)) && AsFlow(Step(c, op)) == FlowStep(AsFlow(c), op)
  {
    WriteInterest(c.events);
    EventOrder(c, op);
    HandleReadGives(c, op.read);
    hide IsReading, IsWriting, Readable, HandleRead, HandleWrite, HandleEvent, FlowRead, FlowWrite;
    ReadIsFlow(c, op.read);
    WriteIsFlow(c, op.write);
    WriteIsFlow(HandleRead(c, op.read), op.write);
  }

  lemma ConsumeIsFlow(c: Conn, n: nat)
    requires ValidBuffers(c)
    ensures ValidBuffers(Consume(c, n)) && AsFlow(Consume(c, n)) == FlowStep(AsFlow(c), Consuming(n))
  {
    hide IsReading, IsWriting, Readable, Consume;
    ConsumeTakes(c, n);
  }

  lemma ControlIsFlow(c: Conn, op: Op)
    requires Possible(c, op) && (op.ShuttingDown? || op.Closing? || op.Starting?)
    ensures ValidBuffers(Step(c, op)) && AsFlow(Step(c, op)) == FlowStep(AsFlow(c), op)
  {
    hide IsReading, IsWriting, Readable, Reading;
    WriteInterest(c.events);
    ReadInterest(c.events);
  }

  lemma StepIsFlowStep(c: Conn, op: Op)
    requires Possible(c, op)
    ensures ValidBuffers(Step(c, op)) && AsFlow(Step(c, op)) == FlowStep(AsFlow(c), op)
  {
    hide Send, FlowSend, HandleEvent, Consume, AsFlow, Pending, Readable;
    match op
    case Sending(data, result, before) => SendIsFlow(c, data, result, before);
    case Event(trigger, read, write) => EventIsFlow(c, op);
    case Consuming(n) => ConsumeIsFlow(c, n);
    case _ => ControlIsFlow(c, op);
  }

  /** Over any run a connection does what the two queues do: nothing that happens depends on how the
      bytes lie in the buffers. */
  lemma {:induction false} RunIsFlowRun(c: Conn, ops: seq<Op>)
    requires ValidBuffers(c) && PossibleRun(c, ops)
    ensures ValidBuffers(Run(c, ops)) && AsFlow(Run(c, ops)) == FlowRun(AsFlow(c), ops)
    decreases |ops|
  {
    hide Step, Possible, AsFlow, FlowStep;
    if ops != [] {
      StepIsFlowStep(c, ops[0]);
      RunIsFlowRun(Step(c, ops[0]), ops[1..]);
    }
  }

  // ----- Close -----

  /** After a close, unless started again, a connection hands over nothing more and stays closed. */
  lemma {:induction false} ClosedStaysClosed(c: Conn, ops: seq<Op>)
    requires Orderly(c) && c.state == DIS_CONNECTED && PossibleRun(c, ops)
    requires forall op :: op in ops ==> !op.Starting?
    ensures var r := Run(c, ops);
            && r.state == DIS_CONNECTED && r.events == 0
            && r.wire == c.wire && r.accepted == c.accepted && r.shuts == c.shuts
    decreases |ops|
  {
    if ops != [] {
      ClosedStep(c, ops[0]);
      OrderlyExactly(c, ops[0]);
      ClosedStaysClosed(Step(c, ops[0]), ops[1..]);
    }
  }

  /** So after `Close`, whether or not there was anything to write. */
  lemma CloseIsFinal(c: Conn, ops: seq<Op>)
    requires Orderly(c) && PossibleRun(Close(c), ops) && forall op :: op in ops ==> !op.Starting?
    ensures var r := Run(Close(c), ops);
            && r.state == DIS_CONNECTED && r.events == 0
            && r.wire == c.wire && r.accepted == c.accepted && r.shuts == c.shuts
  {
    OrderlyExactly(c, Closing);
    ClosedStaysClosed(Close(c), ops);
  }

  lemma ClosedStep(c: Conn, op: Op)
    requires Orderly(c) && c.state == DIS_CONNECTED && Possible(c, op) && !op.Starting?
    ensures var r := Step(c, op);
            r.state == DIS_CONNECTED && r.wire == c.wire && r.accepted == c.accepted && r.shuts == c.shuts
  {
  }

  /** An event that both ends the stream and would let bytes be written closes the connection and
      writes nothing, since reading comes first. */
  lemma EndOfStreamFirst(c: Conn, trigger: Mask, write: WriteResult)
    requires ValidBuffers(c) && (IsWriting(c.events) && write.Wrote? ==> write.n <= |Pending(c)|)
    requires trigger & (EPOLLIN | EPOLLHUP | EPOLLPRI) != 0
    ensures HandleEvent(c, trigger, EndOfStream, write) == Close(c)
  {
    hide IsReading, IsWriting;
    WriteInterest(c.events);
  }

  // ----- Half-close -----

  /** Operations that neither send nor close nor start. */
  predicate Quiet(op: Op) {
    match op
    case Event(trigger, read, write) => !read.EndOfStream?
    case Consuming(n) => true
    case ShuttingDown => true
    case _ => false
  }

  /** A writable event at which the kernel would take at least one byte. */
  predicate Productive(op: Op) {
    op.Event? && op.trigger & EPOLLOUT != 0 && op.write.Wrote? && op.write.n >= 1
  }

  function ProductiveCount(ops: seq<Op>): nat {
    if ops == [] then 0 else (if Productive(ops[0]) then 1 else 0) + ProductiveCount(ops[1..])
  }

  /** What a drained half-close adds to the calls of `shutdown`: one, with everything handed over. */
  function Drained(c: Conn, r: Conn): seq<Shut>
    requires ValidBuffers(c) && ValidBuffers(r)
  {
    if Pending(c) != [] && Pending(r) == [] then [Shut(c.wire + Pending(c), c.accepted)] else []
  }

  /** While open, a quiet step drains. */
  lemma QuietStepDrains(c: Conn, op: Op)
    requires Orderly(c) && c.state != DIS_CONNECTED && Possible(c, op) && Quiet(op)
    ensures var r := Step(c, op);
            && Orderly(r) && r.state != DIS_CONNECTED && r.wire + Pending(r) == c.wire + Pending(c)
            && |Pending(r)| <= |Pending(c)|
            && (Productive(op) && Pending(c) != [] ==> |Pending(r)| < |Pending(c)|)
  {
    OrderlyExactly(c, op);
    StepGives(c, op);
    hide Orderly, IsWriting, HandleWrite, HandleRead, Readable;
    assert IsWriting(c.events) <==> Pending(c) != [] by { OpenInterest(c); }
    if op.Event? {
      EventOrder(c, op);
      HandleReadGives(c, op.read);
      WriteDelivers(c, op.write);
      WriteDelivers(HandleRead(c, op.read), op.write);
      HandleWriteGives(c, op.write);
      HandleWriteGives(HandleRead(c, op.read), op.write);
    }
  }

  lemma OpenInterest(c: Conn)
    requires Orderly(c) && c.state != DIS_CONNECTED
    ensures IsWriting(c.events) <==> Pending(c) != []
  {
  }

  /** Whatever a partial send has left behind, in any open state, is handed over after at most as
      many productive events as bytes were pending, and write interest is off then. */
  lemma {:induction false} PendingIsDelivered(c: Conn, ops: seq<Op>)
    requires Orderly(c) && c.state != DIS_CONNECTED && PossibleRun(c, ops)
    requires forall op :: op in ops ==> Quiet(op)
    ensures var r := Run(c, ops);
            && Orderly(r) && r.wire + Pending(r) == c.wire + Pending(c) && |Pending(r)| <= |Pending(c)|
            && (ProductiveCount(ops) >= |Pending(c)| ==>
                  Pending(r) == [] && r.wire == c.wire + Pending(c) && !IsWriting(r.events))
    decreases |ops|
  {
    hide Orderly, Readable, Productive, Step, Possible, Quiet, IsWriting;
    if ops != [] {
      assert ops[0] in ops && forall op :: op in ops[1..] ==> op in ops;
      QuietStepDrains(c, ops[0]);
      PendingIsDelivered(Step(c, ops[0]), ops[1..]);
    } else {
      OpenInterest(c);
    }
  }

  lemma WaitingWrite(c: Conn, result: WriteResult)
    requires Orderly(c) && c.state == DIS_CONNECTING
    requires IsWriting(c.events) && result.Wrote? ==> result.n <= |Pending(c)|
    ensures var r := HandleWrite(c, result);
            && Orderly(r) && r.state == DIS_CONNECTING
            && |Pending(r)| <= |Pending(c)|
            && (result.Wrote? && result.n >= 1 && Pending(c) != [] ==> |Pending(r)| < |Pending(c)|)
            && r.shuts == c.shuts + Drained(c, r)
  {
    HandleWriteIsOrderly(c, result);
    HandleWriteGives(c, result);
    hide IsReading, IsWriting, NotWriting, Retrieve;
    WriteInterest(c.events);
    if IsWriting(c.events) && result.Wrote? {
      RetrieveDropsFront(c.output, result.n);
      assert Pending(c) == Pending(c)[..result.n] + Pending(HandleWrite(c, result));
      if Pending(HandleWrite(c, result)) == [] {
        assert HandleWrite(c, result).wire == c.wire + Pending(c);
      }
    }
  }

  /** While the half-close waits, a quiet step drains, and the step that drains the last byte
      shuts the write side. */
  lemma QuietStep(c: Conn, op: Op)
    requires Orderly(c) && c.state == DIS_CONNECTING && Possible(c, op) && Quiet(op)
    ensures var r := Step(c, op);
            && Orderly(r) && r.state == DIS_CONNECTING
            && r.wire + Pending(r) == c.wire + Pending(c) && r.accepted == c.accepted
            && |Pending(r)| <= |Pending(c)|
            && (Productive(op) && Pending(c) != [] ==> |Pending(r)| < |Pending(c)|)
            && r.shuts == c.shuts + Drained(c, r)
  {
    OrderlyExactly(c, op);
    StepGives(c, op);
    hide Orderly, IsWriting, HandleWrite, HandleRead, Readable;
    if op.Event? {
      WaitingWrite(c, op.write);
      HandleReadGives(c, op.read);
      WaitingWrite(HandleRead(c, op.read), op.write);
    }
  }

  lemma {:induction false} QuietRun(c: Conn, ops: seq<Op>)
    requires Orderly(c) && c.state == DIS_CONNECTING && PossibleRun(c, ops)
    requires forall op :: op in ops ==> Quiet(op)
    ensures var r := Run(c, ops);
            && Orderly(r) && |Pending(r)| <= |Pending(c)|
            && (ProductiveCount(ops) >= |Pending(c)| ==> Pending(r) == [])
            && r.shuts == c.shuts + Drained(c, r)
    decreases |ops|
  {
    hide Orderly, Readable, Productive, Step, Possible, Quiet;
    if ops != [] {
      assert ops[0] in ops && forall op :: op in ops[1..] ==> op in ops;
      QuietStep(c, ops[0]);
      QuietRun(Step(c, ops[0]), ops[1..]);
    }
  }

  /** After `ShutDown`, with no further send or close, the write side is shut exactly once, when
      the last pending byte has been handed over; and that is after at most as many productive
      events as bytes were pending. */
  lemma HalfClosesOnce(c: Conn, ops: seq<Op>)
    requires Orderly(c) && c.state == CONNECTED && PossibleRun(ShutDown(c), ops)
    requires forall op :: op in ops ==> Quiet(op)
    ensures Orderly(Run(ShutDown(c), ops))
    ensures var r := Run(ShutDown(c), ops);
            && (ProductiveCount(ops) >= |Pending(c)| ==> Pending(r) == [])
            && r.shuts == c.shuts + if Pending(r) == [] then [Shut(c.wire + Pending(c), c.accepted)] else []
  {
    hide IsReading, IsWriting, Readable, Quiet, ProductiveCount;
    assert Pending(c) == [] ==> c.wire + Pending(c) == c.wire;
    QuietRun(ShutDown(c), ops);
  }

  /** A run in which a connection is started at most once. */
  predicate StartsOnce(c: Conn, ops: seq<Op>)
    requires PossibleRun(c, ops)
    decreases |ops|
  {
    ops != [] ==> (ops[0].Starting? ==> c.state == CONNECTING) && StartsOnce(Step(c, ops[0]), ops[1..])
  }

  /** The write side has been shut once at most, and nothing has been handed over since. */
  predicate ShutForGood(c: Conn) {
    && |c.shuts| <= 1
    && (c.shuts != [] ==>
      c.shuts[0].wire == c.wire && (c.state == DIS_CONNECTING || c.state == DIS_CONNECTED))
  }

  lemma ShutForGoodStep(c: Conn, op: Op)
    requires ShutForGood(c) && Possible(c, op) && (op.Starting? ==> c.state == CONNECTING)
    ensures var r := Step(c, op);
            ShutForGood(r) && (c.shuts != [] ==> r.shuts == c.shuts && r.wire == c.wire)
  {
    hide Readable, Writable, IsReading, IsWriting, AppendData, Retrieve, Receive, Reading, Writing, NotWriting;
    WriteInterest(c.events);
  }

  lemma {:induction false} ShutForGoodRun(c: Conn, ops: seq<Op>)
    requires ValidBuffers(c) && ShutForGood(c) && PossibleRun(c, ops) && StartsOnce(c, ops)
    ensures var r := Run(c, ops);
            ShutForGood(r) && (c.shuts != [] ==> r.shuts == c.shuts && r.wire == c.wire)
    ensures Orderly(c) ==> Orderly(Run(c, ops))
    decreases |ops|
  {
    if ops != [] {
      ShutForGoodStep(c, ops[0]);
      StepGives(c, ops[0]);
      if Orderly(c) {
        OrderlyExactly(c, ops[0]);
      }
      hide Step, Possible, Orderly, ShutForGood;
      ShutForGoodRun(Step(c, ops[0]), ops[1..]);
    }
  }

  /** Over all runs with one start, whatever is sent before or after a half-close, the write side
      is shut at most once, and what had been handed over then is all that ever is. */
  lemma ShutsOnce(ops: seq<Op>)
    requires PossibleRun(New(), ops) && StartsOnce(New(), ops)
    ensures var c := Run(New(), ops);
            |c.shuts| <= 1 && (c.shuts != [] ==> c.wire == c.shuts[0].wire)
  {
    ShutForGoodRun(New(), ops);
  }

  /** A send after the write side has been shut is still accepted, but whatever follows it stays
      pending, behind a stray byte, and write interest stays on until a close. */
  lemma SendAfterShut(c: Conn, ops: seq<Op>)
    requires Orderly(c) && ShutForGood(c) && c.shuts != [] && c.state == DIS_CONNECTING && Pending(c) == []
    requires ops != [] && ops[0].Sending? && PossibleRun(c, ops) && StartsOnce(c, ops)
    ensures var r := Run(c, ops);
            && ValidBuffers(r) && r.accepted == c.accepted + Sent(c, ops) && ops[0].data <= Sent(c, ops)
            && r.wire == c.wire && [ops[0].before] + ops[0].data <= Pending(r)
            && (r.state != DIS_CONNECTED ==> IsWriting(r.events))
  {
    ShutForGoodRun(c, ops);
    RunGives(c, ops);
    assert DirectWriteFails(c, ops[0]) && Accepts(c, ops[0]) == ops[0].data;
    hide Step, Possible, DirectWriteFails, IsWriting, IsReading, Readable, ShutForGood, StartsOnce;
    var r, rest := Run(c, ops), SentWithStrays(Step(c, ops[0]), ops[1..]);
    assert SentWithStrays(c, ops) == [ops[0].before] + ops[0].data + rest;
    assert Pending(r) == SentWithStrays(c, ops) by {
      assert (r.wire + Pending(r))[|r.wire|..] == (c.wire + SentWithStrays(c, ops))[|c.wire|..];
    }
  }
}

/** The class, on a handler and two buffers that it owns. */
module TcpConnections {
  import opened EventMask
  import opened EventHandler
  import opened BufferSpec
  import opened ByteBuffer
  import opened ConnectionSpec

  /** The largest `size_t`. */
  const SIZE_MAX := 0xFFFF_FFFF_FFFF_FFFF

  /** Subtraction of `size_t` values wraps around; -1 in an unsigned variable is `SIZE_MAX`. */
  function Minus(x: nat, y: nat): (r: nat)
    requires x <= SIZE_MAX && y <= SIZE_MAX
    ensures y <= x ==> r == x - y
    ensures x < SIZE_MAX == y ==> r == x + 1
  {
    (x - y) % (SIZE_MAX + 1)
  }

  /** The `count` bytes of memory from `data + offset` on. The sum of the pointer wraps around too;
      the byte ahead of the data is `before`. */
  function BytesAt(before: Byte, data: seq<Byte>, offset: nat, count: nat): (r: seq<Byte>)
    requires |data| < SIZE_MAX && (offset <= |data| || offset == SIZE_MAX) && count == Minus(|data|, offset)
    ensures r == if offset == SIZE_MAX then [before] + data else data[offset..]
  {
    var memory, from := [before] + data, (1 + offset) % (SIZE_MAX + 1);
    memory[from..from + count]
  }

  class TcpConnection {
    var state: ConnState
    const inputBuffer: Buffer
    const outputBuffer: Buffer
    const handler: Handler
    ghost var accepted: seq<Byte>
    ghost var wire: seq<Byte>
    ghost var shuts: seq<Shut>
    ghost var received: seq<Byte>
    ghost var consumed: seq<Byte>

    ghost function Repr(): set<object>
      reads this, inputBuffer, outputBuffer
    {
      {this, handler, inputBuffer, inputBuffer.data, outputBuffer, outputBuffer.data}
    }

    /** The two buffers share nothing, and their indices are in order. */
    ghost predicate Valid()
      reads Repr()
    {
      inputBuffer != outputBuffer && inputBuffer.data != outputBuffer.data && ValidBuffers(View())
    }

    ghost function View(): Conn
      reads Repr()
    {
      Conn(state, handler.events, inputBuffer.View(), outputBuffer.View(), accepted, wire, shuts,
           received, consumed)
    }

    constructor ()
      ensures Valid() && fresh(Repr())
      ensures View() == ConnectionSpec.New()
    {
      state := CONNECTING;
      inputBuffer := new Buffer();
      outputBuffer := new Buffer();
      handler := new Handler();
      accepted, wire, shuts, received, consumed := [], [], [], [], [];
    }

    /** `size_t` arithmetic as in the source: an error leaves -1 in the unsigned `nwrite`, and the
        bytes appended are `remain` bytes of memory from `data + nwrite` on. */
    method Send(data: seq<Byte>, result: WriteResult, before: Byte)
      requires Valid() && |data| < SIZE_MAX && (result.Wrote? ==> result.n <= |data|)
      modifies Repr()
      ensures Valid() && fresh(Repr() - old(Repr()))
      ensures View() == ConnectionSpec.Send(old(View()), data, result, before)
    {
      hide IsReading, IsWriting, Writing, BufferSpec.AppendData, Minus, BytesAt;
      assert Pending(View()) == [] <==> outputBuffer.writeIndex - outputBuffer.readIndex == 0;
      hide Readable;
      if state == DIS_CONNECTED {
        return;
      }
      accepted := accepted + data;
      var remain, nwrite := |data|, 0;
      if !IsWriting(handler.events) && outputBuffer.writeIndex - outputBuffer.readIndex == 0 {
        nwrite := if result.Wrote? then result.n else SIZE_MAX;
        if result.Wrote? {
          wire := wire + data[..result.n];
        }
        remain := Minus(|data|, nwrite);
      }
      if remain > 0 {
        outputBuffer.AppendData(BytesAt(before, data, nwrite, remain));
        if !IsWriting(handler.events) {
          handler.EnableWrite();
        }
      }
    }

    method ShutDownWrite()
      modifies this
      requires Valid()
      ensures Valid() && Repr() == old(Repr())
      ensures View() == ConnectionSpec.ShutDownWrite(old(View()))
    {
      if !IsWriting(handler.events) {
        shuts := shuts + [Shut(wire, accepted)];
      }
    }

    method ShutDown()
      requires Valid()
      modifies this
      ensures Valid() && Repr() == old(Repr())
      ensures View() == ConnectionSpec.ShutDown(old(View()))
    {
      if state == CONNECTED {
        state := DIS_CONNECTING;
        ShutDownWrite();
      }
    }

    method HandleWrite(result: WriteResult)
      requires Valid()
      requires IsWriting(handler.events) && result.Wrote? ==> result.n <= |Pending(View())|
      modifies Repr()
      ensures Valid() && Repr() == old(Repr())
      ensures View() == ConnectionSpec.HandleWrite(old(View()), result)
    {
      if IsWriting(handler.events) {
        if result.Wrote? {
          wire := wire + Pending(View())[..result.n];
          outputBuffer.Retrieve(result.n);
          if outputBuffer.writeIndex - outputBuffer.readIndex == 0 {
            handler.DisableWrite();
            if state == DIS_CONNECTING {
              ShutDownWrite();
            }
          }
        }
      }
    }

    method HandleRead(result: ReadResult)
      requires Valid()
      requires result.Got? ==> |result.bytes| <= Writable(inputBuffer.View()) + EXTRA_SIZE
      modifies Repr()
      ensures Valid() && fresh(Repr() - old(Repr()))
      ensures View() == ConnectionSpec.HandleRead(old(View()), result)
    {
      match result
      case ReadError =>
      case EndOfStream =>
        Close();
      case Got(bytes) =>
        received := received + bytes;
        var writable := inputBuffer.data.Length - inputBuffer.writeIndex;
        if writable >= |bytes| {
          inputBuffer.Store(bytes);
          inputBuffer.HasWrite(|bytes|);
        } else {
          inputBuffer.Store(bytes[..writable]);
          inputBuffer.HasWriteToEnd();
          inputBuffer.AppendData(bytes[writable..]);
        }
    }

    method Close()
      requires Valid()
      modifies this, handler
      ensures Valid() && Repr() == old(Repr())
      ensures View() == ConnectionSpec.Close(old(View()))
    {
      handler.DisableAll();
      state := DIS_CONNECTED;
    }

    method Start()
      requires Valid()
      modifies this, handler
      ensures Valid() && Repr() == old(Repr())
      ensures View() == ConnectionSpec.Start(old(View()))
    {
      state := CONNECTED;
      handler.EnableRead();
    }

    /** `GetBuffer()->Retrieve(n)`. */
    method Consume(n: nat)
      requires Valid()
      modifies this, inputBuffer
      ensures Valid() && Repr() == old(Repr())
      ensures View() == ConnectionSpec.Consume(old(View()), n)
    {
      ghost var unread := Readable(inputBuffer.View());
      consumed := consumed + if n < |unread| then unread[..n] else unread;
      inputBuffer.Retrieve(n);
    }

    /** `Handler::HandleEvent`, with the callbacks that the connection has set. */
    method HandleEvent(trigger: Mask, read: ReadResult, write: WriteResult)
      requires Valid()
      requires read.Got? ==> |read.bytes| <= Writable(inputBuffer.View()) + EXTRA_SIZE
      requires IsWriting(handler.events) && write.Wrote? ==> write.n <= |Pending(View())|
      modifies Repr()
      ensures Valid() && fresh(Repr() - old(Repr()))
      ensures View() == ConnectionSpec.HandleEvent(old(View()), trigger, read, write)
    {
      HandleReadGives(View(), read);
      if trigger & (EPOLLIN | EPOLLHUP | EPOLLPRI) != 0 {
        HandleRead(read);
      }
      if trigger & EPOLLOUT != 0 {
        HandleWrite(write);
      }
    }
  }
}
