/** What the functions of zsocket.c leave behind, field by field and with the
    numbers: watermarks, counters, flags, capacities, times. */
module Effects {
  import opened Basics
  import opened ByteQueue
  import opened Sockets
  import opened LoopInvariant
  import opened Callbacks
  import FlagAgreement
  import Polling
  import Closing
  import Streams

  // ------------------------------------------------------------------
  // Opening
  // ------------------------------------------------------------------

  /** A socket nobody touched: 300 seconds until it stalls, no buffers, no flags. */
  function Untouched(kind: Kind, port: int, tick: int): Sock {
    Sock(kind, port, {}, tick, 300, false, None, None, Log([], [], [], [], 0, 0))
  }

  /** `f` was put at the head of the list and counted as one open socket more. */
  ghost predicate OpenedAs(st: State, st': State, f: nat, s: Sock) {
    && st'.order == [f] + st.order && st'.tab == st.tab[f := s]
    && st'.status.total == st.status.total + 1 && st'.status.closed == st.status.closed
    && st'.status.current == st.status.current + 1
    && (forall k :: st'.status.live.Get(k) == st.status.live.Get(k) + if k == s.kind then 1 else 0)
    && st'.redundant == st.redundant && st'.inLoop == st.inLoop
    && st'.fdsWrite == st.fdsWrite && st'.nfdsWrite == st.nfdsWrite
  }

  /** `f` and no other descriptor is selected for reading on top of the rest. */
  ghost predicate ReadsMore(st: State, st': State, f: nat) {
    st'.fdsRead == st.fdsRead + {f} && st'.nfdsRead == Max(st.nfdsRead, f + 1)
  }

  /** What connecting, accepting and listening register: the kind, the port and
      the time the system gives, and for a server that it reads from the start. */
  lemma OpensExactly(st: State, e: Endpoint, server: nat)
    requires e.fd !in st.tab
    ensures var r := Apply(st, Connect(Some(e)));
      && r.Ok? && OpenedAs(st, r.st, e.fd, Untouched(Client, e.port, e.now))
      && r.st.fdsRead == st.fdsRead && r.st.nfdsRead == st.nfdsRead && r.st.portClash == st.portClash
    ensures IsOpen(st, server) && st.tab[server].kind.Server? ==>
              var r := Apply(st, Accept(server, true, Some(e)));
              && r.Ok? && OpenedAs(st, r.st, e.fd, Untouched(Connection, e.port, e.now))
              && r.st.fdsRead == st.fdsRead && r.st.nfdsRead == st.nfdsRead && r.st.portClash == st.portClash
    ensures var r := Apply(st, Listen(Some(e)));
      && r.Ok? && OpenedAs(st, r.st, e.fd, Untouched(Server, e.port, 0).(flags := {ReadEnable}))
      && ReadsMore(st, r.st, e.fd)
      && (r.st.portClash <==> st.portClash || exists g :: g in st.order && g in st.tab && st.tab[g].port == e.port)
    ensures Apply(st, Connect(None)) == Apply(st, Listen(None)) == Ok(st)
  {
    PortInUse(st, e.port);
    hide SharesPort;
    assert {} + {ReadEnable} == {ReadEnable};
  }

  lemma PortInUse(st: State, port: int)
    ensures SharesPort(st, port) <==> exists g :: g in st.order && g in st.tab && st.tab[g].port == port
  {
  }

  // ------------------------------------------------------------------
  // Selecting
  // ------------------------------------------------------------------

  lemma ReadStartExactly(st: State, f: nat)
    requires IsOpen(st, f) && ReadEnable !in st.tab[f].flags
    ensures var r := Apply(st, ReadStart(f)); var s := st.tab[f];
      && r.Ok? && ReadsMore(st, r.st, f)
      && r.st == st.(fdsRead := r.st.fdsRead, nfdsRead := r.st.nfdsRead,
                     tab := st.tab[f := s.(flags := s.flags + {ReadEnable}, readCb := true)])
  {
  }

  lemma ReadStopExactly(st: State, f: nat)
    requires IsOpen(st, f) && ReadEnable in st.tab[f].flags
    ensures var r := Apply(st, ReadStop(f)); var s := st.tab[f];
      && r.Ok? && r.st.fdsRead == st.fdsRead - {f}
      && r.st.nfdsRead == (if st.nfdsRead == f + 1 then f else st.nfdsRead)
      && r.st == st.(fdsRead := r.st.fdsRead, nfdsRead := r.st.nfdsRead,
                     tab := st.tab[f := s.(flags := s.flags - {ReadEnable}, readCb := false)])
  {
  }

  /** Reading is started and stopped without a trace, but for the watermark: it is
      only lowered by one, so it can stay above every selected descriptor. */
  lemma ReadStopUndoes(st: State, f: nat)
    requires IsOpen(st, f) && ReadEnable !in st.tab[f].flags && f !in st.fdsRead
    requires !st.tab[f].readCb && 0 <= st.nfdsRead
    ensures var r := Calls(st, [ReadStart(f), ReadStop(f)]);
      r.Ok? && r.st == st.(nfdsRead := if st.nfdsRead <= f + 1 then f else st.nfdsRead)
  {
    hide Apply;
    ReadStartExactly(st, f);
    var st1 := Apply(st, ReadStart(f)).st;
    ReadStopExactly(st1, f);
    var st2 := Apply(st1, ReadStop(f)).st;
    var acts := [ReadStart(f), ReadStop(f)];
    assert acts[1..] == [ReadStop(f)] && acts[1..][1..] == [];
    assert Calls(st2, []) == Ok(st2);
    assert Calls(st1, [ReadStop(f)]) == Ok(st2) by {
      assert [ReadStop(f)][1..] == [];
    }
    assert st.tab[f].flags + {ReadEnable} - {ReadEnable} == st.tab[f].flags;
    assert st2.tab == st.tab;
    assert st2.fdsRead == st.fdsRead;
  }

  // ------------------------------------------------------------------
  // Writing
  // ------------------------------------------------------------------

  /** A write that has its buffer: the bytes queue up behind what is unsent. The
      first write has a buffer of 8192 bytes and selects the descriptor. */
  ghost predicate Written(st: State, st': State, f: nat, bytes: seq<byte>, growOk: bool) {
    && f in st.tab && f in st'.tab && st'.tab[f].wbuf.Some?
    && var s := st.tab[f];
    && var first := WriteEnable !in s.flags;
    && Wrote(if first || s.wbuf.None? then Queue(8192, 0, []) else s.wbuf.value, st'.tab[f].wbuf.value, bytes, growOk)
    && st'.tab[f] == s.(flags := s.flags + {WriteEnable}, wbuf := st'.tab[f].wbuf, log := st'.tab[f].log)
    && st'.tab == st.tab[f := st'.tab[f]]
    && st'.fdsWrite == (if first then st.fdsWrite + {f} else st.fdsWrite)
    && st'.nfdsWrite == (if first then Max(st.nfdsWrite, f + 1) else st.nfdsWrite)
    && st' == st.(tab := st'.tab, fdsWrite := st'.fdsWrite, nfdsWrite := st'.nfdsWrite)
  }

  /** A write appends to what is unsent: all of it if memory can be had, otherwise
      as much as fits beside it. If there is no memory for the first buffer,
      nothing happens. */
  lemma WriteExactly(st: State, f: nat, bytes: seq<byte>, allocOk: bool, growOk: bool)
    requires Apply(st, Write(f, bytes, allocOk, growOk)).Ok?
    ensures f in st.tab
    ensures var st' := Apply(st, Write(f, bytes, allocOk, growOk)).st;
      if WriteEnable !in st.tab[f].flags && !allocOk then st' == st else Written(st, st', f, bytes, growOk)
  {
    WriteParts(st, f, bytes, allocOk, growOk);
    hide Apply, EnableWrite, PutWrite, WithSock, Written, Queue.Valid;
    if WriteEnable in st.tab[f].flags {
      MoreWritten(st, f, bytes, growOk);
    } else if allocOk {
      FirstWritten(st, f, bytes, growOk);
    }
  }

  lemma MoreWritten(st: State, f: nat, bytes: seq<byte>, growOk: bool)
    requires f in st.tab && WriteEnable in st.tab[f].flags && st.tab[f].wbuf.Some? && st.tab[f].wbuf.value.Valid()
    ensures Written(st, WithSock(st, f, PutWrite(st.tab[f], bytes, growOk)), f, bytes, growOk)
  {
    hide PutWrite, Wrote, Queue.Valid;
    assert st.tab[f].flags + {WriteEnable} == st.tab[f].flags;
    PutExactly(st.tab[f], bytes, growOk);
  }

  lemma FirstWritten(st: State, f: nat, bytes: seq<byte>, growOk: bool)
    requires f in st.tab && WriteEnable !in st.tab[f].flags
    ensures var st1 := EnableWrite(st, f);
      && f in st1.tab && st1.tab[f].wbuf.Some? && st1.tab[f].wbuf.value.Valid()
      && Written(st, WithSock(st1, f, PutWrite(st1.tab[f], bytes, growOk)), f, bytes, growOk)
  {
    WriteSelects(st, f);
    EmptyIsValid();
    hide PutWrite, Wrote, EnableWrite;
    PutExactly(EnableWrite(st, f).tab[f], bytes, growOk);
  }

  lemma WriteParts(st: State, f: nat, bytes: seq<byte>, allocOk: bool, growOk: bool)
    requires Apply(st, Write(f, bytes, allocOk, growOk)).Ok?
    ensures f in st.tab && (WriteEnable !in st.tab[f].flags && !allocOk ==>
              Apply(st, Write(f, bytes, allocOk, growOk)) == Ok(st))
    ensures WriteEnable in st.tab[f].flags || allocOk ==>
              var st1 := if WriteEnable in st.tab[f].flags then st else EnableWrite(st, f);
              && f in st1.tab && st1.tab[f].wbuf.Some? && st1.tab[f].wbuf.value.Valid()
              && Apply(st, Write(f, bytes, allocOk, growOk)) ==
                 Ok(WithSock(st1, f, PutWrite(st1.tab[f], bytes, growOk)))
  {
    hide PutWrite, Queue.Valid;
  }

  lemma WriteSelects(st: State, f: nat)
    requires f in st.tab
    ensures var s := st.tab[f]; var st1 := EnableWrite(st, f);
      && f in st1.tab && st1.tab[f] == s.(flags := s.flags + {WriteEnable}, wbuf := Some(Queue(8192, 0, [])))
      && st1 == st.(tab := st.tab[f := st1.tab[f]], fdsWrite := st.fdsWrite + {f},
                    nfdsWrite := Max(st.nfdsWrite, f + 1))
  {
  }

  lemma PutExactly(s: Sock, bytes: seq<byte>, growOk: bool)
    requires s.wbuf.Some? && s.wbuf.value.Valid()
    ensures var s' := PutWrite(s, bytes, growOk);
      && s'.wbuf.Some? && Wrote(s.wbuf.value, s'.wbuf.value, bytes, growOk)
      && s' == s.(wbuf := s'.wbuf, log := s'.log)
  {
    hide Queue.Write, Queue.Accepted, Wrote;
    ByteQueue.WriteExactly(s.wbuf.value, bytes, growOk);
  }

  // ------------------------------------------------------------------
  // Closing
  // ------------------------------------------------------------------

  /** The descriptor leaves both sets, a watermark right above it falls by one, and
      one socket moves from the open ones to the closed ones. */
  ghost predicate Deselected(st: State, st': State, f: nat, kind: Kind) {
    && st'.fdsRead == st.fdsRead - {f} && st'.fdsWrite == st.fdsWrite - {f}
    && st'.nfdsRead == (if st.nfdsRead == f + 1 then f else st.nfdsRead)
    && st'.nfdsWrite == (if st.nfdsWrite == f + 1 then f else st.nfdsWrite)
    && st'.status.total == st.status.total && st'.status.closed == st.status.closed + 1
    && st'.status.current == st.status.current - 1
    && (forall k :: st'.status.live.Get(k) == st.status.live.Get(k) - if k == kind then 1 else 0)
    && st'.inLoop == st.inLoop && st'.portClash == st.portClash
  }

  /** The socket is closed and stays on the list; nothing else of it changes but its
      flags, and nothing of any other socket. */
  ghost predicate Shut(st: State, st': State, f: nat, flags: set<Flag>) {
    && f in st.tab && Eof in flags
    && st'.order == st.order && st'.tab == st.tab[f := st.tab[f].(flags := flags)]
    && Deselected(st, st', f, st.tab[f].kind)
  }

  /** Masking the flags and closing, in the loop. */
  lemma MaskShuts(st: State, f: nat, flag: Flag)
    requires f in st.tab
    ensures Shut(st, MaskAndClose(st, f, flag), f, st.tab[f].flags * {flag} + {Eof})
    ensures Eof !in st.tab[f].flags ==> MaskAndClose(st, f, flag).redundant == st.redundant
  {
  }

  lemma CloseExactly(st: State, f: nat)
    requires Shape(st) && IsOpen(st, f) && Apply(st, Close(f)).Ok?
    ensures var st' := Apply(st, Close(f)).st;
      && Deselected(st, st', f, st.tab[f].kind) && st'.redundant == st.redundant
      && (st.inLoop ==> Shut(st, st', f, st.tab[f].flags + {Eof}))
      && (!st.inLoop ==> st'.order == Filter(st.order, g => g != f) && st'.tab == st.tab - {f})
  {
    if !st.inLoop {
      Closing.CloseOutsideExactly(st, f);
      hide SharesPort, Filter, Cascade;
    }
  }

  // ------------------------------------------------------------------
  // Sending
  // ------------------------------------------------------------------

  /** A buffer `q` after `n` bytes were taken off its front. They stay as garbage
      until the buffer is empty or has no more than a quarter to spare. */
  function Rest(q: Queue, n: nat): Queue
    requires n <= |q.data|
  {
    var spare := q.size - q.garbage - |q.data|;
    if n == 0 then q
    else if n == |q.data| || spare <= q.size / 4 then Queue(q.size, 0, q.data[n..])
    else Queue(q.size, q.garbage + n, q.data[n..])
  }

  lemma RestData(q: Queue, n: nat)
    requires n <= |q.data|
    ensures Rest(q, n).data == q.data[n..]
  {
  }

  lemma DrainIsRest(q: Queue, n: nat)
    requires q.Valid() && n <= |q.data|
    ensures Drain(q, n) == Rest(q, n)
  {
  }

  /** Nothing to send, or nothing sent: no change. A positive answer of send takes
      exactly that many bytes off the front of the buffer and leaves all else alone.
      A failed send closes the socket with what WRITE_FAILED leaves of its flags. */
  lemma SendExactly(st: State, f: nat, d: Dispatch)
    requires Inv(st) && f in st.tab && HandleSend(st, f, d).Ok?
    ensures st.tab[f].wbuf.Some? && Eof !in st.tab[f].flags && WriteEnable in st.tab[f].flags
    ensures var s := st.tab[f]; var data := s.wbuf.value.data; var st' := HandleSend(st, f, d).st;
      && (data == [] || d.sent == 0 ==> st' == st)
      && (data != [] && 0 < d.sent ==>
            && d.sent <= |data| && f in st'.tab && st'.tab[f].wbuf.Some?
            && st'.tab[f].wbuf.value.data == data[d.sent..] && st'.tab[f].wbuf == Some(Rest(s.wbuf.value, d.sent))
            && st'.tab[f].log == s.log.(sent := s.log.sent + data[..d.sent])
            && st' == st.(tab := st.tab[f := s.(wbuf := st'.tab[f].wbuf, log := st'.tab[f].log)]))
      && (data != [] && d.sent < 0 ==>
            Shut(st, st', f, s.flags * {WriteFailed} + {Eof}) && st'.redundant == st.redundant)
  {
    hide Inv, MaskAndClose, Shut, Rest, AfterSend;
    var s := st.tab[f];
    WriteBufferValid(st, f);
    MaskShuts(st, f, WriteFailed);
    if s.wbuf.value.data != [] && 0 < d.sent {
      WbufRunoutIsDead(st, f, d);
      SentExactly(s, d.sent);
    }
  }

  lemma SentExactly(s: Sock, n: nat)
    requires s.wbuf.Some? && s.wbuf.value.Valid() && n <= |s.wbuf.value.data|
    ensures var data := s.wbuf.value.data; var s' := AfterSend(s, n);
      && s'.wbuf == Some(Rest(s.wbuf.value, n)) && s'.wbuf.value.data == data[n..]
      && s'.log == s.log.(sent := s.log.sent + data[..n])
      && s' == s.(wbuf := s'.wbuf, log := s'.log)
  {
    DrainIsRest(s.wbuf.value, n);
    RestData(s.wbuf.value, n);
    hide Drain, Rest;
  }

  // ------------------------------------------------------------------
  // Receiving
  // ------------------------------------------------------------------

  /** The socket as its read callback finds it: a buffer of 8192 bytes if it had
      none, the new bytes behind the unread ones, the time of this recv, and after a
      failure nothing of its flags but READ_FAILED. */
  ghost predicate Received(s: Sock, s1: Sock, d: Dispatch) {
    var q := if s.rbuf.Some? then s.rbuf.value else Queue(8192, 0, []);
    var news := if d.recv.Failed? then [] else d.recv.bytes;
    && |news| <= q.size - q.garbage - |q.data|
    && s1.log.received == s.log.received + news && s1.tick == d.now
    && s1.flags == (if d.recv.Failed? then s.flags * {ReadFailed} else s.flags)
    && s1 == s.(rbuf := Some(Queue(q.size, q.garbage, q.data + news)), flags := s1.flags, tick := d.now, log := s1.log)
  }

  lemma ReceivedIs(s: Sock, d: Dispatch)
    requires |Incoming(d.recv)| <= (if s.rbuf.Some? then s.rbuf.value else Empty(READ_BUF_SIZE)).Spare()
    ensures Received(s, AfterRecv(s, d), d)
  {
  }

  /** The end of a receive dispatch, from the return of the callback on: what was
      taken leaves the front of the buffer; a buffer that is full then is doubled,
      and without memory the socket is closed with what RBUF_RUNOUT leaves of its
      flags. */
  ghost predicate Finished(st: State, st': State, f: nat, d: Dispatch)
    requires f in st.tab && st.tab[f].rbuf.Some?
  {
    var q := st.tab[f].rbuf.value;
    var n := Min(Max(0, d.taken), |q.data|);
    var q' := Rest(q, n);
    var full := q'.size == q'.garbage + |q'.data|;
    var s := st.tab[f].(rbuf := Some(if full && d.growOk then q'.(size := 2 * q'.size) else q'),
                        log := st.tab[f].log.(consumed := st.tab[f].log.consumed + q.data[..n]));
    if full && !d.growOk then
      Shut(st.(tab := st.tab[f := s]), st', f, s.flags * {RbufRunout} + {Eof})
    else st' == st.(tab := st.tab[f := s])
  }

  lemma FinishedIs(st: State, f: nat, d: Dispatch)
    requires f in st.tab && st.tab[f].rbuf.Some? && st.tab[f].rbuf.value.Valid() && 0 <= d.taken
    ensures Finished(st, GrowOrClose(WithSock(st, f, AfterRead(st.tab[f], d.taken)), f, d.growOk), f, d)
  {
    hide Drain, Rest, MaskAndClose, Shut;
    var s, q := st.tab[f], st.tab[f].rbuf.value;
    var n := Min(d.taken, |q.data|);
    DrainIsRest(q, n);
    MaskShuts(WithSock(st, f, AfterRead(s, d.taken)), f, RbufRunout);
  }

  /** A receive dispatch in three steps: the socket receives, its callback makes its
      calls, and the dispatch finishes. */
  lemma RecvExactly(st: State, f: nat, d: Dispatch) returns (st1: State, st2: State)
    requires Inv(st) && Room(st, {}) && st.inLoop && f in st.tab && HandleRecv(st, f, d).Ok?
    requires !st.tab[f].kind.Server? && (st.tab[f].rbuf.Some? || d.rbufOk)
    ensures f in st1.tab && Received(st.tab[f], st1.tab[f], d) && st1 == st.(tab := st.tab[f := st1.tab[f]])
    ensures Calls(st1, d.acts) == Ok(st2) && f in st2.tab && st2.tab[f].rbuf == st1.tab[f].rbuf
    ensures st2.tab[f].rbuf.Some? && Finished(st2, HandleRecv(st, f, d).st, f, d)
    ensures f in HandleRecv(st, f, d).st.tab && HandleRecv(st, f, d).st.tab[f].tick == d.now
  {
    RecvFits(st, f, d);
    ReceivedIs(st.tab[f], d);
    hide Inv, Room, Calls, GrowOrClose, AfterRead, AfterRecv, Finished, Received, HandleRecv;
    st1, st2 := FlagAgreement.RecvParts(st, f, d);
    FinishedIs(st2, f, d);
    Streams.RecvStamps(st, f, d);
    assert st1.tab[f] == AfterRecv(st.tab[f], d);
  }

  lemma RecvFits(st: State, f: nat, d: Dispatch)
    requires f in st.tab && HandleRecv(st, f, d).Ok? && !st.tab[f].kind.Server? && (st.tab[f].rbuf.Some? || d.rbufOk)
    ensures |Incoming(d.recv)| <= (if st.tab[f].rbuf.Some? then st.tab[f].rbuf.value else Empty(READ_BUF_SIZE)).Spare()
  {
    hide Calls, GrowOrClose, AfterRead, AfterRecv;
  }

  /** A server only runs its callback; a socket for which there is no memory does
      nothing at all. */
  lemma RecvOtherwise(st: State, f: nat, d: Dispatch)
    requires f in st.tab && Eof !in st.tab[f].flags && ReadEnable in st.tab[f].flags
    ensures st.tab[f].kind.Server? ==> HandleRecv(st, f, d) == Calls(st, d.acts)
    ensures !st.tab[f].kind.Server? && st.tab[f].rbuf.None? && !d.rbufOk ==> HandleRecv(st, f, d) == Ok(st)
  {
    hide Calls;
  }

  // ------------------------------------------------------------------
  // One turn
  // ------------------------------------------------------------------

  /** Whatever select reports of the descriptors it was asked about, a turn serves
      the ready sockets of the list as it stands, then closes; when
      select is interrupted it only closes; when select breaks it only remembers
      that it is in the loop. */
  lemma TurnExactly(st: State, sel: Select, world: World, clock: Clock)
    requires Inv(st) && (sel.Ready? ==> sel.r <= st.fdsRead && sel.w <= st.fdsWrite)
    ensures var st0 := st.(inLoop := true);
      var p := if sel.Ready? then Polling.Sweep(st0, st.order, sel.r, sel.w, world) else Ok(st0);
      Loop(st, sel, world, clock) ==
        if sel.Broken? then Ok(st0)
        else if !p.Ok? then p
        else if !DoClose(p.st, clock).Ok? then DoClose(p.st, clock)
        else Ok(DoClose(p.st, clock).st.(inLoop := false))
  {
    hide Visit, DoClose;
    if sel.Ready? {
      Polling.PollSkipsNobody(st.(inLoop := true), sel, world);
    }
  }
}
