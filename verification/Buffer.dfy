/** The growable byte buffer: a vector with a reader and a writer index, eight spare bytes in
    front, compaction before growth, and a scatter read that spills to the stack. */
module Buffers {

  const CHEAP_PREPEND: nat := 8
  const EXTRA_SIZE: nat := 65536

  function Max(a: nat, b: nat): nat { if a < b then b else a }

  /** What readv brought, or its error. */
  datatype ReadResult = Data(bytes: string) | Failed

  class Buffer {
    var buffer: array<char>
    var readerIndex: nat
    var writerIndex: nat
    const initialSize: nat

    /** The largest number of readable bytes there ever was. */
    ghost var peak: nat

    /** The indices are in order, and the storage is within twice what was ever needed at once. */
    ghost predicate Valid()
      reads this
    {
      && CHEAP_PREPEND <= readerIndex <= writerIndex <= buffer.Length
      && writerIndex - readerIndex <= peak
      && buffer.Length <= Max(CHEAP_PREPEND + initialSize, 2 * peak + 7)
    }

    /** The byte queue that the buffer stands for. */
    ghost function Contents(): string
      requires Valid()
      reads this, buffer
    {
      buffer[readerIndex..writerIndex]
    }

    constructor (size: nat)
      ensures Valid() && Contents() == "" && fresh(buffer) && peak == 0 && initialSize == size
    {
      buffer := new char[CHEAP_PREPEND + size](_ => '\0');
      readerIndex, writerIndex, initialSize, peak := CHEAP_PREPEND, CHEAP_PREPEND, size, 0;
    }

    function ReadableBytes(): nat
      requires Valid()
      reads this
    {
      writerIndex - readerIndex
    }

    function WritableBytes(): nat
      requires Valid()
      reads this
    {
      buffer.Length - writerIndex
    }

    /** vector::resize to a larger size. */
    method Resize(size: nat)
      requires readerIndex <= writerIndex <= buffer.Length <= size
      modifies this`buffer
      ensures fresh(buffer) && buffer.Length == size
      ensures buffer[readerIndex..writerIndex] == old(buffer[readerIndex..writerIndex])
    {
      var bigger := new char[size](_ => '\0');
      forall k | 0 <= k < buffer.Length { bigger[k] := buffer[k]; }
      buffer := bigger;
    }

    /** std::copy of the readable bytes down to the front, byte by byte in rising order: right only
        because the target lies strictly to the left. */
    method Compact()
      requires Valid() && readerIndex > CHEAP_PREPEND
      modifies this`readerIndex, this`writerIndex, buffer
      ensures Valid() && readerIndex == CHEAP_PREPEND
      ensures Contents() == old(Contents())
    {
      ghost var was := Contents();
      var n := writerIndex - readerIndex;
      var i := 0;
      while i < n
        invariant 0 <= i <= n
        modifies buffer
        invariant forall k :: 0 <= k < i ==> buffer[CHEAP_PREPEND + k] == was[k]
        invariant forall k :: i <= k < n ==> buffer[readerIndex + k] == was[k]
      {
        buffer[CHEAP_PREPEND + i] := buffer[readerIndex + i];
        i := i + 1;
      }
      readerIndex := CHEAP_PREPEND;
      writerIndex := readerIndex + n;
      assert Contents() == was;
    }

    /** makeSpace: growth only if compaction cannot make the room. */
    method MakeSpace(len: nat)
      requires Valid() && WritableBytes() < len
      modifies this`buffer, this`readerIndex, this`writerIndex, buffer
      ensures CHEAP_PREPEND <= readerIndex <= writerIndex && writerIndex + len <= buffer.Length
      ensures writerIndex - readerIndex == old(writerIndex - readerIndex)
      ensures buffer[readerIndex..writerIndex] == old(Contents())
      ensures buffer.Length <= Max(old(buffer.Length), 2 * (old(ReadableBytes()) + len) + 7)
      ensures fresh(buffer) || buffer == old(buffer)
      ensures if old(buffer.Length) - old(writerIndex - readerIndex) < len + CHEAP_PREPEND
              then buffer.Length == writerIndex + len && readerIndex == old(readerIndex)
              else buffer == old(buffer) && readerIndex == CHEAP_PREPEND < old(readerIndex)
    {
      if buffer.Length - writerIndex + readerIndex < len + CHEAP_PREPEND {
        Resize(writerIndex + len);
      } else {
        Compact();
      }
    }

    /** Copy to beginWrite(). */
    method CopyIn(data: string)
      requires readerIndex <= writerIndex && writerIndex + |data| <= buffer.Length
      modifies buffer
      ensures buffer[readerIndex..writerIndex + |data|] == old(buffer[readerIndex..writerIndex]) + data
    {
      forall k | 0 <= k < |data| { buffer[writerIndex + k] := data[k]; }
    }

    /** Copy to free space and hasWritten(). */
    method Fill(data: string)
      requires Valid() && |data| <= WritableBytes()
      modifies this`writerIndex, this`peak, buffer
      ensures Valid() && Contents() == old(Contents()) + data
      ensures peak == Max(old(peak), old(|Contents()|) + |data|)
    {
      ghost var was := Contents();
      CopyIn(data);
      writerIndex := writerIndex + |data|;
      peak := Max(peak, |was| + |data|);
    }

    /** append: the bytes join the end of the queue. */
    method Append(data: string)
      requires Valid()
      modifies this, buffer
      ensures Valid() && Contents() == old(Contents()) + data
      ensures peak == Max(old(peak), old(|Contents()|) + |data|)
      ensures fresh(buffer) || buffer == old(buffer)
    {
      peak := Max(peak, |Contents()| + |data|);
      if WritableBytes() < |data| {
        MakeSpace(|data|);
      }
      Fill(data);
    }

    method RetrieveAll()
      requires Valid()
      modifies this`readerIndex, this`writerIndex
      ensures Valid() && Contents() == "" && readerIndex == writerIndex == CHEAP_PREPEND
    {
      readerIndex, writerIndex := CHEAP_PREPEND, CHEAP_PREPEND;
    }

    /** retrieve: bytes leave at the front; asking for all or more empties the buffer and moves it back to
        the spare bytes. */
    method Retrieve(len: nat)
      requires Valid()
      modifies this`readerIndex, this`writerIndex
      ensures Valid()
      ensures Contents() == if len < |old(Contents())| then old(Contents())[len..] else ""
      ensures if len < |old(Contents())| then readerIndex == old(readerIndex) + len && writerIndex == old(writerIndex)
              else readerIndex == writerIndex == CHEAP_PREPEND
    {
      if len < ReadableBytes() {
        readerIndex := readerIndex + len;
      } else {
        RetrieveAll();
      }
    }

    /** retrieveAsString, with a length within the readable bytes. */
    method RetrieveAsString(len: nat) returns (text: string)
      requires Valid() && len <= |Contents()|
      modifies this`readerIndex, this`writerIndex
      ensures Valid()
      ensures text + Contents() == old(Contents()) && |text| == len
    {
      text := buffer[readerIndex..readerIndex + len];
      Retrieve(len);
    }

    /** What one readv can bring: the free space and, if that is short, a stack buffer behind it. */
    function Room(): (room: nat)
      requires Valid()
      reads this
      ensures room >= EXTRA_SIZE
    {
      WritableBytes() + (if WritableBytes() < EXTRA_SIZE then EXTRA_SIZE else 0)
    }

    /** readFd: what went to the stack buffer is appended. */
    method ReadFd(result: ReadResult)
      requires Valid()
      requires result.Data? ==> |result.bytes| <= Room()
      modifies this, buffer
      ensures Valid()
      ensures Contents() == old(Contents()) + (if result.Data? then result.bytes else "")
      ensures peak == if result.Data? then Max(old(peak), old(|Contents()|) + |result.bytes|) else old(peak)
      ensures fresh(buffer) || buffer == old(buffer)
    {
      if result.Data? {
        var writable := WritableBytes();
        if |result.bytes| <= writable {
          Fill(result.bytes);
        } else {
          Fill(result.bytes[..writable]);
          Append(result.bytes[writable..]);
          assert result.bytes[..writable] + result.bytes[writable..] == result.bytes;
        }
      }
    }
  }

  // ---- whole runs against a plain byte queue --------------------------------------------------

  /** `Fetch` is a readFd with that much to read, `FetchFails` one that fails. */
  datatype Op = Put(bytes: string) | Fetch(bytes: string) | FetchFails | Take(n: nat)

  /** A plain queue: what has left it, what is in it, and the most that ever was. */
  datatype Queue = Queue(out: string, inside: string, peak: nat)

  function QueueStep(q: Queue, op: Op): Queue {
    match op
    case Put(bytes) => Queue(q.out, q.inside + bytes, Max(q.peak, |q.inside| + |bytes|))
    case Fetch(bytes) => Queue(q.out, q.inside + bytes, Max(q.peak, |q.inside| + |bytes|))
    case FetchFails => q
    case Take(n) =>
      var k := if n <= |q.inside| then n else |q.inside|;
      Queue(q.out + q.inside[..k], q.inside[k..], q.peak)
  }

  function QueueRun(ops: seq<Op>): Queue {
    if ops == [] then Queue("", "", 0) else QueueStep(QueueRun(ops[..|ops| - 1]), ops[|ops| - 1])
  }

  function Input(ops: seq<Op>): string {
    if ops == [] then ""
    else
      Input(ops[..|ops| - 1]) +
      (match ops[|ops| - 1] case Put(b) => b case Fetch(b) => b case FetchFails => "" case Take(_) => "")
  }

  /** The queue neither loses, invents nor reorders a byte. */
  lemma {:induction false} QueueIsFifo(ops: seq<Op>)
    ensures QueueRun(ops).out + QueueRun(ops).inside == Input(ops)
    ensures |QueueRun(ops).inside| <= QueueRun(ops).peak
  {
    if ops != [] {
      QueueIsFifo(ops[..|ops| - 1]);
    }
  }

  /** What came of an operation: a fetch brings a first piece of what there is to read, and all of it
      if the stack buffer alone could hold it. */
  ghost predicate CameOf(did: Op, op: Op) {
    did == op || (did.Fetch? && op.Fetch? && did.bytes < op.bytes && |did.bytes| >= EXTRA_SIZE)
  }

  method RunOp(b: Buffer, op: Op, ghost out: string) returns (text: string, did: Op)
    requires b.Valid()
    modifies b, b.buffer
    ensures b.Valid() && (fresh(b.buffer) || b.buffer == old(b.buffer))
    ensures CameOf(did, op)
    ensures Queue(out + text, b.Contents(), b.peak) == QueueStep(Queue(out, old(b.Contents()), old(b.peak)), did)
  {
    text, did := "", op;
    match op {
      case Put(bytes) => b.Append(bytes);
      case Fetch(bytes) =>
        var room := b.Room();
        var got := if |bytes| <= room then bytes else bytes[..room];
        b.ReadFd(Data(got));
        did := Fetch(got);
      case FetchFails => b.ReadFd(Failed);
      case Take(n) =>
        text := b.RetrieveAsString(if n <= b.ReadableBytes() then n else b.ReadableBytes());
    }
  }

  /** Every series of operations on a buffer is a series on a plain queue, the same but for fetches
      that readv cuts short, in storage that never exceeds the larger of the initial size and twice
      the queue's peak plus seven. */
  method RunBuffer(size: nat, ops: seq<Op>)
    returns (out: string, rest: string, storage: nat, done: seq<Op>)
    ensures |done| == |ops| && forall i :: 0 <= i < |ops| ==> CameOf(done[i], ops[i])
    ensures out == QueueRun(done).out && rest == QueueRun(done).inside
    ensures storage <= Max(CHEAP_PREPEND + size, 2 * QueueRun(done).peak + 7)
  {
    hide QueueStep;
    var b := new Buffer(size);
    out, done := "", [];
    for i := 0 to |ops|
      invariant b.Valid() && fresh(b) && fresh(b.buffer) && b.initialSize == size
      invariant |done| == i && forall j :: 0 <= j < i ==> CameOf(done[j], ops[j])
      invariant Queue(out, b.Contents(), b.peak) == QueueRun(done)
    {
      var did;
      var text;
      text, did := RunOp(b, ops[i], out);
      assert (done + [did])[..i] == done;
      out, done := out + text, done + [did];
    }
    rest, storage := b.buffer[b.readerIndex..b.writerIndex], b.buffer.Length;
  }
}
