/** The growable byte buffer of Buffer.h: bytes are appended at a write index and taken at a
    read index; space already read is reused by moving the readable bytes to the front.
    This module says what each operation makes of the state. */
module BufferSpec {

  type Byte = bv8

  /** The state of a buffer. The readable bytes are those from the read to the write index. */
  datatype Buf = Buf(cells: seq<Byte>, read: int, write: int)

  const INITE_SIZE := 1024

  /** The local array into which `HandleRead` lets the kernel put what the buffer cannot hold. */
  const EXTRA_SIZE := 65535

  predicate Valid(b: Buf) {
    0 <= b.read <= b.write <= |b.cells|
  }

  function Readable(b: Buf): seq<Byte>
    requires Valid(b)
  {
    b.cells[b.read..b.write]
  }

  function Writable(b: Buf): int {
    |b.cells| - b.write
  }

  function Zeros(n: nat): seq<Byte> {
    seq(n, _ => 0)
  }

  function New(): Buf {
    Buf(Zeros(INITE_SIZE), 0, 0)
  }

  function RetrieveAll(b: Buf): Buf {
    Buf(b.cells, 0, 0)
  }

  function Retrieve(b: Buf, len: nat): Buf {
    if b.write - b.read > len then b.(read := b.read + len) else RetrieveAll(b)
  }

  /** `std::copy` of the readable bytes to the front, which leaves the cells after them alone. */
  function Compacted(b: Buf): seq<Byte>
    requires Valid(b)
  {
    b.cells[b.read..b.write] + b.cells[b.write - b.read..]
  }

  function ExtendSpace(b: Buf, len: nat): Buf
    requires Valid(b)
  {
    if Writable(b) + b.read < len then b.(cells := b.cells + Zeros(b.write + len - |b.cells|))
    else Buf(Compacted(b), 0, b.write - b.read)
  }

  /** The cells with `bytes` stored from the write index on. */
  function Stored(b: Buf, bytes: seq<Byte>): seq<Byte>
    requires Valid(b) && |bytes| <= Writable(b)
  {
    b.cells[..b.write] + bytes + b.cells[b.write + |bytes|..]
  }

  function Write(b: Buf, bytes: seq<Byte>): Buf
    requires Valid(b) && |bytes| <= Writable(b)
  {
    Buf(Stored(b, bytes), b.read, b.write + |bytes|)
  }

  /** When space runs short, extending makes enough of it. */
  lemma ExtendMakesRoom(b: Buf, len: nat)
    requires Valid(b)
    ensures Valid(ExtendSpace(b, len)) && Writable(ExtendSpace(b, len)) >= len
    ensures Readable(ExtendSpace(b, len)) == Readable(b)
  {
  }

  function AppendData(b: Buf, bytes: seq<Byte>): (r: Buf)
    requires Valid(b)
    ensures Valid(r) && Readable(r) == Readable(b) + bytes
  {
    ExtendMakesRoom(b, |bytes|);
    Write(if Writable(b) < |bytes| then ExtendSpace(b, |bytes|) else b, bytes)
  }

  /** What `HandleRead` does with the bytes of one `readv`: the kernel fills the buffer first
      and the extra array with the rest. */
  function Receive(b: Buf, bytes: seq<Byte>): (r: Buf)
    requires Valid(b) && |bytes| <= Writable(b) + EXTRA_SIZE
    ensures Valid(r) && Readable(r) == Readable(b) + bytes
  {
    if Writable(b) >= |bytes| then Write(b, bytes)
    else
      var full := Write(b, bytes[..Writable(b)]);
      assert bytes == bytes[..Writable(b)] + bytes[Writable(b)..];
      AppendData(full, bytes[Writable(b)..])
  }

  /** A buffer from which all has been taken starts over at the front. */
  lemma EmptyStartsOver(b: Buf, n: nat)
    requires Valid(b)
    ensures var r := Retrieve(b, n);
            && Valid(r) && Readable(r) == Readable(b)[if n < |Readable(b)| then n else |Readable(b)|..]
            && (Readable(r) == [] ==> r.read == 0 == r.write) && r.cells == b.cells
  {
  }

  // ----- Runs -----

  /** Operations on a buffer, with another one at hand to swap with. */
  datatype Op = Append(bytes: seq<Byte>) | Take(n: nat) | TakeAll | FromKernel(bytes: seq<Byte>) | Exchange

  datatype Pair<T> = Pair(mine: T, other: T)

  predicate ValidPair(p: Pair<Buf>) {
    Valid(p.mine) && Valid(p.other)
  }

  predicate Possible(p: Pair<Buf>, op: Op) {
    ValidPair(p) && (op.FromKernel? ==> |op.bytes| <= Writable(p.mine) + EXTRA_SIZE)
  }

  function Step(p: Pair<Buf>, op: Op): Pair<Buf>
    requires Possible(p, op)
  {
    match op
    case Append(bytes) => p.(mine := AppendData(p.mine, bytes))
    case Take(n) => p.(mine := Retrieve(p.mine, n))
    case TakeAll => p.(mine := RetrieveAll(p.mine))
    case FromKernel(bytes) => p.(mine := Receive(p.mine, bytes))
    case Exchange => Pair(p.other, p.mine)
  }

  /** The kernel may bring a new buffer as much as it holds and 65535 bytes more. */
  lemma FirstRead(bytes: seq<Byte>)
    ensures Possible(Pair(New(), New()), FromKernel(bytes)) <==> |bytes| <= 1024 + 65535
  {
  }

  /** The same operation on queues of bytes. */
  function QueueStep(q: Pair<seq<Byte>>, op: Op): Pair<seq<Byte>> {
    match op
    case Append(bytes) => q.(mine := q.mine + bytes)
    case Take(n) => q.(mine := if n < |q.mine| then q.mine[n..] else [])
    case TakeAll => q.(mine := [])
    case FromKernel(bytes) => q.(mine := q.mine + bytes)
    case Exchange => Pair(q.other, q.mine)
  }

  function Queues(p: Pair<Buf>): Pair<seq<Byte>>
    requires ValidPair(p)
  {
    Pair(Readable(p.mine), Readable(p.other))
  }

  lemma StepIsQueueStep(p: Pair<Buf>, op: Op)
    requires Possible(p, op)
    ensures ValidPair(Step(p, op)) && Queues(Step(p, op)) == QueueStep(Queues(p), op)
  {
  }

  /** Every operation of a run is possible in the state it finds. */
  predicate PossibleRun(p: Pair<Buf>, ops: seq<Op>)
    decreases |ops|
  {
    ops != [] ==> Possible(p, ops[0]) && PossibleRun(Step(p, ops[0]), ops[1..])
  }

  function Run(p: Pair<Buf>, ops: seq<Op>): Pair<Buf>
    requires PossibleRun(p, ops)
    decreases |ops|
  {
    if ops == [] then p else Run(Step(p, ops[0]), ops[1..])
  }

  function QueueRun(q: Pair<seq<Byte>>, ops: seq<Op>): Pair<seq<Byte>>
    decreases |ops|
  {
    if ops == [] then q else QueueRun(QueueStep(q, ops[0]), ops[1..])
  }

  /** Over any run both buffers are first-in first-out queues of bytes. */
  lemma {:induction false} RunIsQueueRun(p: Pair<Buf>, ops: seq<Op>)
    requires ValidPair(p) && PossibleRun(p, ops)
    ensures ValidPair(Run(p, ops)) && Queues(Run(p, ops)) == QueueRun(Queues(p), ops)
    decreases |ops|
  {
    if ops != [] {
      StepIsQueueStep(p, ops[0]);
      RunIsQueueRun(Step(p, ops[0]), ops[1..]);
    }
  }

  function Max(a: int, b: int): int { if a < b then b else a }

  /** The most bytes readable in one buffer at any moment of a run. */
  function Peak(q: Pair<seq<Byte>>, ops: seq<Op>): int
    decreases |ops|
  {
    var now := Max(|q.mine|, |q.other|);
    if ops == [] then now else Max(now, Peak(QueueStep(q, ops[0]), ops[1..]))
  }

  /** Memory grows only when even the space already read would not do, and then to less than twice
      what is readable; and no byte is moved while there is room behind them. */
  lemma AppendCapacity(b: Buf, bytes: seq<Byte>)
    requires Valid(b)
    ensures var r := AppendData(b, bytes);
            && |b.cells| <= |r.cells|
            && (|r.cells| == |b.cells| <==> |Readable(b)| + |bytes| <= |b.cells|)
            && (|r.cells| != |b.cells| ==> |r.cells| < 2 * |Readable(r)|)
            && (|bytes| <= Writable(b) ==> r.read == b.read && |r.cells| == |b.cells|)
            && (|bytes| > Writable(b) && |r.cells| == |b.cells| ==> r.read == 0)
  {
    ExtendMakesRoom(b, |bytes|);
  }

  /** An operation makes a buffer no larger than it was, or than twice what is then readable. */
  lemma GrowthIsBounded(b: Buf, op: Op)
    requires Possible(Pair(b, b), op) && !op.Exchange?
    ensures var r := Step(Pair(b, b), op).mine;
            |b.cells| <= |r.cells| && (|r.cells| == |b.cells| || |r.cells| < 2 * |Readable(r)|)
  {
    hide AppendData;
    if op.Append? {
      AppendCapacity(b, op.bytes);
    } else if op.FromKernel? && Writable(b) < |op.bytes| {
      AppendCapacity(Write(b, op.bytes[..Writable(b)]), op.bytes[Writable(b)..]);
    }
  }

  lemma {:induction false} RunCapacity(p: Pair<Buf>, ops: seq<Op>, bound: int)
    requires ValidPair(p) && PossibleRun(p, ops)
    requires |p.mine.cells| <= bound && |p.other.cells| <= bound && 2 * Peak(Queues(p), ops) <= bound
    ensures |Run(p, ops).mine.cells| <= bound && |Run(p, ops).other.cells| <= bound
    decreases |ops|
  {
    if ops != [] {
      StepIsQueueStep(p, ops[0]);
      if !ops[0].Exchange? { GrowthIsBounded(p.mine, ops[0]); }
      PeakCovers(QueueStep(Queues(p), ops[0]), ops[1..]);
      RunCapacity(Step(p, ops[0]), ops[1..], bound);
    }
  }

  lemma PeakCovers(q: Pair<seq<Byte>>, ops: seq<Op>)
    ensures |q.mine| <= Peak(q, ops) && |q.other| <= Peak(q, ops)
  {
  }

  /** From new buffers, memory stays within the initial size, or twice the most bytes that were
      ever readable at once. */
  lemma CapacityIsBounded(ops: seq<Op>)
    requires PossibleRun(Pair(New(), New()), ops)
    ensures |Run(Pair(New(), New()), ops).mine.cells| <= Max(1024, 2 * Peak(Pair([], []), ops))
  {
    RunCapacity(Pair(New(), New()), ops, Max(INITE_SIZE, 2 * Peak(Pair([], []), ops)));
  }
}

/** The class itself, with its storage updated in place. */
module ByteBuffer {
  import opened BufferSpec

  /** Copies cells `from` up to `to` to the front, in ascending order as `std::copy` does; the
      two ranges may overlap. */
  method CopyToFront(a: array<Byte>, from: nat, to: nat)
    requires from <= to <= a.Length
    modifies a
    ensures a[..] == old(a[from..to]) + old(a[to - from..])
  {
    var i := 0;
    while i < to - from
      invariant 0 <= i <= to - from
      invariant forall k :: 0 <= k < i ==> a[k] == old(a[from + k])
      invariant forall k :: i <= k < a.Length ==> a[k] == old(a[k])
    {
      a[i] := a[from + i];
      i := i + 1;
    }
  }

  class Buffer {
    var data: array<Byte>
    var readIndex: nat
    var writeIndex: nat

    function View(): Buf
      reads this, data
    {
      Buf(data[..], readIndex, writeIndex)
    }

    constructor ()
      ensures View() == New() && fresh(data)
    {
      data := new Byte[INITE_SIZE](_ => 0);
      readIndex, writeIndex := 0, 0;
    }

    method Swap(buffer: Buffer)
      modifies this, buffer
      ensures View() == old(buffer.View()) && buffer.View() == old(View())
      ensures data == old(buffer.data) && buffer.data == old(data)
    {
      data, buffer.data := buffer.data, data;
      readIndex, buffer.readIndex := buffer.readIndex, readIndex;
      writeIndex, buffer.writeIndex := buffer.writeIndex, writeIndex;
    }

    method RetrieveAll()
      modifies this
      ensures data == old(data) && View() == BufferSpec.RetrieveAll(old(View()))
    {
      readIndex := 0;
      writeIndex := 0;
    }

    method Retrieve(len: nat)
      requires Valid(View())
      modifies this
      ensures data == old(data) && View() == BufferSpec.Retrieve(old(View()), len)
    {
      if writeIndex - readIndex > len {
        readIndex := readIndex + len;
      } else {
        RetrieveAll();
      }
    }

    /** The caller has written `len` bytes at the write index. */
    method HasWrite(len: nat)
      requires writeIndex + len <= data.Length
      modifies this
      ensures data == old(data)
      ensures View() == old(View()).(write := old(writeIndex) + len)
    {
      writeIndex := writeIndex + len;
    }

    method HasWriteToEnd()
      modifies this
      ensures data == old(data)
      ensures View() == old(View()).(write := data.Length)
    {
      writeIndex := data.Length;
    }

    method ExtendSpace(len: nat)
      requires Valid(View())
      modifies this, data
      ensures fresh(data) || data == old(data)
      ensures View() == BufferSpec.ExtendSpace(old(View()), len)
    {
      if data.Length - writeIndex + readIndex < len {
        var old_ := data;
        var larger := new Byte[writeIndex + len](
          i requires 0 <= i reads old_ => if i < old_.Length then old_[i] else 0);
        data := larger;
        assert data[..] == old(data[..]) + Zeros(writeIndex + len - old_.Length);
      } else {
        var readable := writeIndex - readIndex;
        CopyToFront(data, readIndex, writeIndex);
        readIndex := 0;
        writeIndex := readable;
      }
    }

    /** Stores bytes at the write index without moving it, as the kernel or `std::copy` does. */
    method Store(bytes: seq<Byte>)
      requires Valid(View()) && |bytes| <= Writable(View())
      modifies data
      ensures View() == old(View()).(cells := Stored(old(View()), bytes))
    {
      forall i | 0 <= i < |bytes| {
        data[writeIndex + i] := bytes[i];
      }
    }

    method AppendData(bytes: seq<Byte>)
      requires Valid(View())
      modifies this, data
      ensures fresh(data) || data == old(data)
      ensures View() == BufferSpec.AppendData(old(View()), bytes)
    {
      ExtendMakesRoom(View(), |bytes|);
      if data.Length - writeIndex < |bytes| {
        ExtendSpace(|bytes|);
      }
      Store(bytes);
      HasWrite(|bytes|);
    }
  }
}
