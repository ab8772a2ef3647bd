/** The growable byte queue of qbuf.c: its value, its operations on values, and
    what every sequence of operations guarantees. */
module ByteQueue {
  import opened Basics

  const RAW_SIZE := 4096

  /** The two policy bits of qbuf.h. */
  datatype Policy = Policy(lessSpare: bool, largeGarbage: bool)

  const POLICY_NONE := Policy(false, false)
  const POLICY_LESS_SPARE := Policy(true, false)

  /** A queue as its client sees it: `data` is the unread bytes, `garbage` the
      bytes already read that still sit in front of them, `size` the capacity. */
  datatype Queue = Queue(size: nat, garbage: nat, data: seq<byte>) {
    predicate Valid() {
      0 < size && garbage + |data| <= size
    }

    function Spare(): int {
      size - garbage - |data|
    }

    /** Whether the policy lets a collection with unread data go ahead. */
    predicate Due(p: Policy) {
      && !(p.lessSpare && Spare() > size / 4)
      && !(p.largeGarbage && garbage < size / 4)
    }

    function Collect(p: Policy): Queue {
      if data == [] || Due(p) then this.(garbage := 0) else this
    }

    function Drop(n: nat): Queue {
      var m := if n <= |data| then n else |data|;
      Queue(size, garbage + m, data[m..])
    }

    function Fill(bytes: seq<byte>): Queue {
      this.(data := data + bytes)
    }

    /** The queue just before the final copy of a write: collected if the bytes
        do not fit, then enlarged if they still do not fit. */
    function MakeRoom(len: nat, reallocOk: bool): Queue {
      var q := if len > Spare() then Collect(POLICY_NONE) else this;
      if len > q.Spare() && reallocOk then
        q.(size := 2 * (if size > len then size else len))
      else q
    }

    /** How many of `len` bytes a write takes: all of them when the allocator
        grants the larger buffer, otherwise as many as a packed queue can hold. */
    function Accepted(len: nat, reallocOk: bool): (n: nat)
      requires Valid()
      ensures n <= len
      ensures reallocOk ==> n == len
      ensures !reallocOk ==> n == Min(len, size - |data|) || (n == len && len <= Spare())
    {
      var q := MakeRoom(len, reallocOk);
      if len <= q.Spare() then len else q.Spare()
    }

    /** Appends the accepted prefix; a byte is turned away only when the
        capacity is completely filled with unread data. */
    function Write(bytes: seq<byte>, reallocOk: bool): (q: Queue)
      requires Valid()
      ensures q.Valid()
      ensures q.data == data + bytes[..Accepted(|bytes|, reallocOk)]
      ensures Accepted(|bytes|, reallocOk) < |bytes| ==> |q.data| == q.size == size
      ensures q.size != size ==> q.size <= 2 * |q.data|
    {
      MakeRoom(|bytes|, reallocOk).Fill(bytes[..Accepted(|bytes|, reallocOk)])
    }
  }

  /** `q'` is `q` after a write of `bytes`: all of them behind the content if memory
      can be had, otherwise as many as fit beside it. A write that does not fit
      behind the content packs the queue; one that does not fit beside it enlarges
      it, to twice the larger of its size and the write. */
  ghost predicate Wrote(q: Queue, q': Queue, bytes: seq<byte>, reallocOk: bool) {
    var room := q.size - |q.data|;
    && 0 <= room
    && q'.data == q.data + (if reallocOk || |bytes| <= room then bytes else bytes[..room])
    && q'.size == (if reallocOk && |bytes| > room then 2 * Max(q.size, |bytes|) else q.size)
    && q'.garbage == (if |bytes| > room - q.garbage then 0 else q.garbage)
  }

  lemma WriteExactly(q: Queue, bytes: seq<byte>, reallocOk: bool)
    requires q.Valid()
    ensures Wrote(q, q.Write(bytes, reallocOk), bytes, reallocOk)
  {
    assert bytes[..|bytes|] == bytes;
  }

  function Empty(size: nat): Queue {
    Queue(if size == 0 then RAW_SIZE else size, 0, [])
  }

  // ------------------------------------------------------------------
  // Any sequence of operations
  // ------------------------------------------------------------------

  datatype Op = OpWrite(bytes: seq<byte>, reallocOk: bool) | OpRead(n: nat) | OpCollect(p: Policy)

  function Do(q: Queue, op: Op): Queue
    requires q.Valid()
    ensures Do(q, op).Valid()
  {
    match op
    case OpWrite(bytes, ok) => q.Write(bytes, ok)
    case OpRead(n) => q.Drop(n)
    case OpCollect(p) => q.Collect(p)
  }

  function RunOps(q: Queue, ops: seq<Op>): Queue
    requires q.Valid()
    ensures RunOps(q, ops).Valid()
    decreases |ops|
  {
    if ops == [] then q else RunOps(Do(q, ops[0]), ops[1..])
  }

  /** The bytes one operation takes in, and the bytes it hands out. */
  function Taken(q: Queue, op: Op): seq<byte>
    requires q.Valid()
  {
    if op.OpWrite? then op.bytes[..q.Accepted(|op.bytes|, op.reallocOk)] else []
  }

  function Given(q: Queue, op: Op): seq<byte> {
    if op.OpRead? then q.data[..if op.n <= |q.data| then op.n else |q.data|] else []
  }

  /** Everything the writes of a run accepted, and everything its reads
      delivered, in order. */
  function Input(q: Queue, ops: seq<Op>): seq<byte>
    requires q.Valid()
    decreases |ops|
  {
    if ops == [] then [] else Taken(q, ops[0]) + Input(Do(q, ops[0]), ops[1..])
  }

  function Output(q: Queue, ops: seq<Op>): seq<byte>
    requires q.Valid()
    decreases |ops|
  {
    if ops == [] then [] else Given(q, ops[0]) + Output(Do(q, ops[0]), ops[1..])
  }

  function Peak(q: Queue, ops: seq<Op>): nat
    requires q.Valid()
    decreases |ops|
  {
    if ops == [] then |q.data| else Max(|q.data|, Peak(Do(q, ops[0]), ops[1..]))
  }

  lemma StepIsFifo(q: Queue, op: Op)
    requires q.Valid()
    ensures q.data + Taken(q, op) == Given(q, op) + Do(q, op).data
  {
  }

  /** First in, first out, over every run and across every collection and
      growth: what went in is what came out followed by what is still held. */
  lemma {:induction false} RunIsFifo(q: Queue, ops: seq<Op>)
    requires q.Valid()
    ensures q.data + Input(q, ops) == Output(q, ops) + RunOps(q, ops).data
    decreases |ops|
  {
    if ops == [] {
    } else {
      var q' := Do(q, ops[0]);
      StepIsFifo(q, ops[0]);
      RunIsFifo(q', ops[1..]);
      Splice(q.data, Taken(q, ops[0]), Given(q, ops[0]), q'.data,
             Input(q', ops[1..]), Output(q', ops[1..]), RunOps(q', ops[1..]).data);
    }
  }

  lemma Splice(a: seq<byte>, t: seq<byte>, g: seq<byte>, b: seq<byte>, i: seq<byte>, o: seq<byte>, r: seq<byte>)
    requires a + t == g + b && b + i == o + r
    ensures a + (t + i) == (g + o) + r
  {
    assert a + (t + i) == (g + b) + i == g + (b + i) == (g + o) + r;
  }

  /** Capacity is never more than twice the largest amount ever held at once. */
  lemma {:induction false} RunCapacity(q: Queue, ops: seq<Op>)
    requires q.Valid()
    ensures RunOps(q, ops).size <= Max(q.size, 2 * Peak(q, ops))
    decreases |ops|
  {
    if ops == [] {
    } else {
      var q' := Do(q, ops[0]);
      RunCapacity(q', ops[1..]);
      assert |q'.data| <= Peak(q', ops[1..]);
      assert q'.size <= Max(q.size, 2 * |q'.data|);
    }
  }
}
