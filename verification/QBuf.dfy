/** The queue of qbuf.c as it lives in memory: one buffer and two offsets,
    updated in place. Every method is tied to the operation on `Queue` values. */
module QBuf {
  import opened Basics
  import opened ByteQueue

  const INT_MAX := 0x7FFF_FFFF

  /** memmove towards lower addresses; the two ranges may overlap. */
  method MoveDown(a: array<byte>, src: nat, n: nat)
    requires src + n <= a.Length
    modifies a
    ensures a[..n] == old(a[src..src + n])
    ensures a[n..] == old(a[n..])
  {
    var i := 0;
    while i < n
      invariant 0 <= i <= n
      invariant forall k :: 0 <= k < i ==> a[k] == old(a[src + k])
      invariant forall k :: i <= k < a.Length ==> a[k] == old(a[k])
    {
      a[i] := a[src + i];
      i := i + 1;
    }
  }

  class QBuf {
    var rawbuf: array<byte>
    var size: nat
    var offsetIn: nat
    var offsetOut: nat

    ghost predicate Valid()
      reads this
    {
      0 < size == rawbuf.Length && offsetOut <= offsetIn <= size
    }

    ghost function View(): (q: Queue)
      requires Valid()
      reads this, rawbuf
      ensures q.Valid()
    {
      Queue(size, offsetOut, rawbuf[offsetOut..offsetIn])
    }

    constructor (capacity: nat)
      ensures Valid() && fresh(rawbuf)
      ensures View() == Empty(capacity)
      ensures size == (if capacity == 0 then 4096 else capacity) && offsetIn == offsetOut == 0
    {
      var n := if capacity == 0 then RAW_SIZE else capacity;
      rawbuf := new byte[n](_ => 0);
      size, offsetIn, offsetOut := n, 0, 0;
    }

    /** Resizes the buffer; `granted` is the allocator's answer. On refusal the
        queue is untouched. A length that cuts into the content is accepted, too,
        and leaves a queue whose offsets point behind its buffer. */
    method Realloc(len: nat, granted: bool) returns (rc: int)
      requires Valid() && 0 < len
      modifies this
      ensures rc == if granted then 0 else -1
      ensures rawbuf == old(rawbuf) || fresh(rawbuf)
      ensures offsetIn == old(offsetIn) && offsetOut == old(offsetOut)
      ensures granted ==> size == len == rawbuf.Length
      ensures granted ==> rawbuf[..Min(old(size), len)] == old(rawbuf[..Min(size, len)])
      ensures Valid() <==> !granted || old(offsetIn) <= len
      ensures Valid() ==> View() == if granted then old(View()).(size := len) else old(View())
    {
      if granted {
        var newbuf := new byte[len](_ => 0);
        var keep := if size < len then size else len;
        forall i | 0 <= i < keep {
          newbuf[i] := rawbuf[i];
        }
        assert newbuf[..keep] == rawbuf[..keep];
        assert offsetIn <= len ==> newbuf[offsetOut..offsetIn] == rawbuf[offsetOut..offsetIn];
        rawbuf, size := newbuf, len;
        rc := 0;
      } else {
        rc := -1;
      }
    }

    function Garbage(): nat
      reads this
    {
      offsetOut
    }

    function Used(): (n: int)
      requires Valid()
      reads this, rawbuf
      ensures n == |View().data|
    {
      offsetIn - offsetOut
    }

    function Spare(): (n: int)
      requires Valid()
      reads this, rawbuf
      ensures n == View().Spare() >= 0
    {
      size - offsetIn
    }

    /** Packs the unread bytes to the front unless the policy objects: LESS_SPARE
        to a queue that has more than a quarter of its size to spare,
        LARGE_GARBAGE to one that would gain less than a quarter. The content
        never changes, although source and target overlap. */
    method Collect(policy: Policy) returns (spare: int)
      requires Valid()
      modifies this, rawbuf
      ensures Valid() && rawbuf == old(rawbuf)
      ensures View() == old(View()).Collect(policy)
      ensures View().data == old(View().data) && size == old(size)
      ensures spare == size - offsetIn == View().Spare()
      ensures old(offsetIn == offsetOut) ==> offsetIn == offsetOut == 0
      ensures old(offsetIn != offsetOut) ==>
                var packs :=
                  && (policy.lessSpare ==> old(size - offsetIn) <= size / 4)
                  && (policy.largeGarbage ==> old(offsetOut) >= size / 4);
                if packs then offsetOut == 0 && offsetIn == old(offsetIn - offsetOut)
                else offsetOut == old(offsetOut) && offsetIn == old(offsetIn)
    {
      var policyDo := true;
      if policy.lessSpare {
        if Spare() > size / 4 {
          policyDo := false;
        }
      }
      if policy.largeGarbage {
        if Garbage() < size / 4 {
          policyDo := false;
        }
      }
      if Used() == 0 {
        offsetIn, offsetOut := 0, 0;
      } else if policyDo {
        var n := offsetIn - offsetOut;
        MoveDown(rawbuf, offsetOut, n);
        offsetIn := n;
        offsetOut := 0;
      }
      spare := size - offsetIn;
    }

    /** Consumes up to `len` bytes; a larger `len` is clamped. */
    method OffsetOutHead(len: nat) returns (used: int)
      requires Valid()
      modifies this`offsetOut
      ensures Valid()
      ensures View() == old(View()).Drop(len)
      ensures offsetOut == Min(old(offsetOut) + len, offsetIn)
      ensures used == |View().data|
    {
      offsetOut := offsetOut + len;
      if offsetOut > offsetIn {
        offsetOut := offsetIn;
      }
      used := offsetIn - offsetOut;
    }

    /** Publishes up to `len` bytes already copied behind the content. */
    method OffsetInHead(len: nat) returns (spare: int)
      requires Valid()
      modifies this`offsetIn
      ensures Valid()
      ensures offsetIn == Min(old(offsetIn) + len, size)
      ensures View() == old(View()).Fill(rawbuf[old(offsetIn)..offsetIn])
      ensures spare == View().Spare()
    {
      offsetIn := offsetIn + len;
      if offsetIn > size {
        offsetIn := size;
      }
      spare := size - offsetIn;
    }

    /** Copies a prefix of the content to `buf` without consuming it. */
    method Peek(buf: array<byte>, len: nat) returns (n: nat)
      requires Valid() && len <= buf.Length && buf != rawbuf
      modifies buf
      ensures n == Min(len, |View().data|)
      ensures buf[..n] == View().data[..n] && buf[n..] == old(buf[n..])
      ensures View() == old(View())
    {
      n := if len <= offsetIn - offsetOut then len else offsetIn - offsetOut;
      forall i | 0 <= i < n {
        buf[i] := rawbuf[offsetOut + i];
      }
    }

    /** Moves a prefix of the content to `buf`. The count passes through an
        `int`, so it has to fit one. */
    method Read(buf: array<byte>, len: nat) returns (n: nat)
      requires Valid() && len <= buf.Length && buf != rawbuf
      requires len <= INT_MAX || Used() <= INT_MAX
      modifies this`offsetOut, buf
      ensures Valid()
      ensures n == Min(len, |old(View().data)|)
      ensures buf[..n] == old(View().data)[..n] && buf[n..] == old(buf[n..])
      ensures View() == old(View()).Drop(n)
      ensures buf[..n] + View().data == old(View().data)
    {
      n := Peek(buf, len);
      var _ := OffsetOutHead(n);
    }

    /** Appends what fits, packing and then enlarging the buffer when needed. */
    method Write(buf: seq<byte>, granted: bool) returns (n: nat)
      requires Valid()
      modifies this, rawbuf
      ensures Valid() && (rawbuf == old(rawbuf) || fresh(rawbuf))
      ensures n == old(View()).Accepted(|buf|, granted)
      ensures View() == old(View()).Write(buf, granted)
      ensures n == if granted then |buf| else Min(|buf|, old(size - (offsetIn - offsetOut)))
      ensures View().data == old(View().data) + buf[..n]
      ensures size == if |buf| > old(size - (offsetIn - offsetOut)) && granted then 2 * Max(old(size), |buf|)
                      else old(size)
      ensures offsetOut == if |buf| > old(size - offsetIn) then 0 else old(offsetOut)
    {
      if |buf| > Spare() {
        var _ := Collect(POLICY_NONE);
      }
      if |buf| > Spare() {
        var _ := Realloc(if size > |buf| then size * 2 else |buf| * 2, granted);
      }
      assert View() == old(View()).MakeRoom(|buf|, granted);
      n := Append(buf);
    }

    /** The tail of a write: copies the prefix that fits behind the content and
        publishes it. */
    method Append(buf: seq<byte>) returns (n: nat)
      requires Valid()
      modifies this`offsetIn, rawbuf
      ensures Valid()
      ensures n == Min(|buf|, old(Spare()))
      ensures View() == old(View()).Fill(buf[..n])
    {
      n := if |buf| <= Spare() then |buf| else Spare();
      forall i | 0 <= i < n {
        rawbuf[offsetIn + i] := buf[i];
      }
      assert View() == old(View());
      assert rawbuf[offsetIn..offsetIn + n] == buf[..n];
      var _ := OffsetInHead(n);
    }
  }
}
