/** What every run of the event loop keeps, whatever the application, the
    network, the allocator and the clock do: the list has no duplicates, the
    descriptor sets agree with the sockets, the watermarks are sound, the
    counters add up, the buffers stay within bounds and no byte is lost. */
module LoopInvariant {
  import opened Basics
  import opened ByteQueue
  import opened Sockets

  // ------------------------------------------------------------------
  // The invariant
  // ------------------------------------------------------------------

  ghost predicate Shape(st: State) {
    NoDup(st.order) && forall f :: f in st.order <==> f in st.tab
  }

  function Held(b: Option<Queue>): seq<byte> {
    if b.Some? then b.value.data else []
  }

  /** A read buffer between two dispatches: what was read and not yet collected
      stays below three quarters of the capacity. */
  ghost predicate ReadBufferInv(q: Queue) {
    q.Valid() && (q.garbage == 0 || q.garbage < q.size - q.size / 4)
  }

  /** Buffers and streams of one socket, and its time-out. */
  ghost predicate SockInv(s: Sock) {
    && (s.rbuf.Some? ==>
        && ReadBufferInv(s.rbuf.value)
        && s.rbuf.value.size <= Max(READ_BUF_SIZE, 8 * s.log.readPeak)
        && |s.rbuf.value.data| <= s.log.readPeak)
    && s.log.received == s.log.consumed + Held(s.rbuf)
    && (s.wbuf.Some? ==>
        && s.wbuf.value.Valid()
        && s.wbuf.value.size <= Max(WRITE_BUF_SIZE, 2 * s.log.writePeak))
    && s.log.accepted == s.log.sent + Held(s.wbuf)
    && (s.kind.Server? ==> s.rbuf.None?)
    && s.stall == STALL_INTERVAL
  }

  /** Outside its own dispatch an open socket always has room to receive. Only
      the sockets in `busy` are exempt. */
  ghost predicate Room(st: State, busy: set<nat>) {
    forall f :: f in st.tab && f !in busy && Eof !in st.tab[f].flags && st.tab[f].rbuf.Some? ==>
      0 < st.tab[f].rbuf.value.Spare()
  }

  /** One socket against its membership in the two descriptor sets. */
  ghost predicate FdInv(s: Sock, reading: bool, writing: bool) {
    if Eof in s.flags then !reading && !writing
    else
      && (ReadEnable in s.flags ==> reading && (s.kind.Server? || s.readCb))
      && (WriteEnable in s.flags ==> writing)
      && (writing <==> s.wbuf.Some?)
  }

  ghost predicate SocketsInv(st: State) {
    && (forall f :: f in st.tab ==> SockInv(st.tab[f]))
    && (forall f :: f in st.tab ==> FdInv(st.tab[f], f in st.fdsRead, f in st.fdsWrite))
    && st.fdsRead <= st.tab.Keys && st.fdsWrite <= st.tab.Keys
  }

  ghost predicate Watermarks(st: State) {
    && 0 <= st.nfdsRead && 0 <= st.nfdsWrite
    && (forall f :: f in st.fdsRead ==> f < st.nfdsRead)
    && (forall f :: f in st.fdsWrite ==> f < st.nfdsWrite)
  }

  /** The open sockets of one kind. */
  ghost function Live(tab: map<nat, Sock>, k: Kind): set<nat> {
    set f | f in tab && tab[f].kind == k && Eof !in tab[f].flags
  }

  /** The counters. The last line is exact: a per-kind counter differs from the
      number of open sockets by the number of redundant closes, no more. */
  ghost predicate Counters(st: State) {
    && st.status.total == st.status.current + st.status.closed
    && st.status.current == st.status.live.client + st.status.live.server + st.status.live.connection
    && st.redundant.server == 0 && 0 <= st.redundant.client && 0 <= st.redundant.connection
    && (forall k :: st.status.live.Get(k) == |Live(st.tab, k)| - st.redundant.Get(k))
  }

  ghost predicate Inv(st: State) {
    Shape(st) && SocketsInv(st) && Watermarks(st) && Counters(st)
  }

  // ------------------------------------------------------------------
  // The shared updates
  // ------------------------------------------------------------------

  lemma LiveUnchanged(tab: map<nat, Sock>, f: nat, s: Sock)
    requires f in tab && s.kind == tab[f].kind && (Eof in s.flags <==> Eof in tab[f].flags)
    ensures forall k :: Live(tab[f := s], k) == Live(tab, k)
  {
  }

  lemma LiveClosed(tab: map<nat, Sock>, f: nat, s: Sock, k: Kind)
    requires f in tab && s.kind == tab[f].kind && Eof in s.flags
    ensures |Live(tab[f := s], k)| ==
            |Live(tab, k)| - if k == s.kind && Eof !in tab[f].flags then 1 else 0
  {
    if k == s.kind && Eof !in tab[f].flags {
      assert Live(tab, k) == Live(tab[f := s], k) + {f};
    } else {
      assert Live(tab, k) == Live(tab[f := s], k);
    }
  }

  lemma LiveAdded(tab: map<nat, Sock>, f: nat, s: Sock, k: Kind)
    requires f !in tab && Eof !in s.flags
    ensures |Live(tab[f := s], k)| == |Live(tab, k)| + if k == s.kind then 1 else 0
  {
    if k == s.kind {
      assert Live(tab[f := s], k) == Live(tab, k) + {f};
    } else {
      assert Live(tab[f := s], k) == Live(tab, k);
    }
  }

  /** Changing one socket without opening, closing or retyping it. */
  lemma WithSockInv(st: State, f: nat, s: Sock)
    requires Inv(st) && f in st.tab
    requires s.kind == st.tab[f].kind && (Eof in s.flags <==> Eof in st.tab[f].flags)
    requires SockInv(s) && FdInv(s, f in st.fdsRead, f in st.fdsWrite)
    ensures Inv(WithSock(st, f, s))
  {
    LiveUnchanged(st.tab, f, s);
  }

  lemma RegisterInv(st: State, f: nat, s: Sock)
    requires Inv(st) && f !in st.tab && Eof !in s.flags
    requires SockInv(s) && FdInv(s, false, false)
    ensures Inv(Register(st, f, s))
  {
    RegisterCounters(st, f, s);
    hide Counters, SockInv, FdInv;
    assert f !in st.fdsRead && f !in st.fdsWrite;
  }

  lemma RegisterCounters(st: State, f: nat, s: Sock)
    requires Counters(st) && f !in st.tab && Eof !in s.flags
    ensures Counters(Register(st, f, s))
  {
    forall k ensures |Live(Register(st, f, s).tab, k)| == |Live(st.tab, k)| + if k == s.kind then 1 else 0 {
      LiveAdded(st.tab, f, s, k);
    }
    hide Live;
  }

  /** Changing one socket together with its membership in the two sets. */
  lemma SelectInv(st: State, st': State, f: nat)
    requires Inv(st) && f in st.tab && f in st'.tab && st'.order == st.order && st'.tab == st.tab[f := st'.tab[f]]
    requires st'.status == st.status && st'.redundant == st.redundant && Watermarks(st')
    requires st'.tab[f].kind == st.tab[f].kind && (Eof in st'.tab[f].flags <==> Eof in st.tab[f].flags)
    requires SockInv(st'.tab[f]) && FdInv(st'.tab[f], f in st'.fdsRead, f in st'.fdsWrite)
    requires forall g :: g != f ==>
               (g in st'.fdsRead <==> g in st.fdsRead) && (g in st'.fdsWrite <==> g in st.fdsWrite)
    ensures Inv(st')
  {
    hide SockInv, FdInv, Watermarks;
    LiveUnchanged(st.tab, f, st'.tab[f]);
    hide Live;
    assert forall g :: g in st'.tab && g != f ==> st'.tab[g] == st.tab[g];
  }

  lemma WatermarksOf(st: State)
    requires Inv(st)
    ensures Watermarks(st)
  {
  }

  lemma EnableReadInv(st: State, f: nat, callback: bool)
    requires Inv(st) && IsOpen(st, f) && (callback || st.tab[f].kind.Server?)
    ensures Inv(EnableRead(st, f, callback))
  {
    hide Inv;
    SocketAt(st, f);
    WatermarksOf(st);
    SelectInv(st, EnableRead(st, f, callback), f);
  }

  lemma DisableReadInv(st: State, f: nat)
    requires Inv(st) && IsOpen(st, f)
    ensures Inv(DisableRead(st, f))
  {
    hide Inv;
    SocketAt(st, f);
    WatermarksOf(st);
    SelectInv(st, DisableRead(st, f), f);
  }

  lemma EnableWriteInv(st: State, f: nat)
    requires Inv(st) && IsOpen(st, f) && st.tab[f].wbuf.None?
    ensures Inv(EnableWrite(st, f))
  {
    hide Inv;
    SocketAt(st, f);
    WatermarksOf(st);
    SelectInv(st, EnableWrite(st, f), f);
  }

  /** One more close: the counters stay balanced, and a close of a socket that
      was closed already shows up in `redundant`. */
  lemma CountersClosed(st: State, st': State, f: nat)
    requires Counters(st) && f in st.tab && f in st'.tab
    requires st'.tab == st.tab[f := st'.tab[f]]
    requires st'.tab[f].kind == st.tab[f].kind && Eof in st'.tab[f].flags
    requires Eof in st.tab[f].flags ==> !st.tab[f].kind.Server?
    requires st'.status == MarkClosed(st, f).status
    requires st'.redundant == if Eof in st.tab[f].flags then st.redundant.Add(st.tab[f].kind, 1) else st.redundant
    ensures Counters(st')
  {
    forall k ensures st'.status.live.Get(k) == |Live(st'.tab, k)| - st'.redundant.Get(k) {
      LiveClosed(st.tab, f, st'.tab[f], k);
    }
  }

  lemma MarkClosedInv(st: State, f: nat)
    requires Inv(st) && IsOpen(st, f)
    ensures Inv(MarkClosed(st, f))
  {
    MarkClosedSets(st, f);
    hide Watermarks, SockInv, FdInv;
    CountersClosed(st, MarkClosed(st, f), f);
    MarkClosedSockets(st, f);
  }

  lemma MarkClosedSets(st: State, f: nat)
    requires Shape(st) && Watermarks(st) && IsOpen(st, f)
    ensures Shape(MarkClosed(st, f)) && Watermarks(MarkClosed(st, f))
  {
  }

  lemma MarkClosedSockets(st: State, f: nat)
    requires SocketsInv(st) && IsOpen(st, f)
    ensures SocketsInv(MarkClosed(st, f))
  {
    var st' := MarkClosed(st, f);
    forall g | g in st'.tab
      ensures SockInv(st'.tab[g]) && FdInv(st'.tab[g], g in st'.fdsRead, g in st'.fdsWrite)
    {
      assert SockInv(st.tab[g]) && FdInv(st.tab[g], g in st.fdsRead, g in st.fdsWrite);
    }
  }

  /** What may be in disorder at `f` just before it is given up. */
  ghost predicate InvExcept(st: State, f: nat) {
    && Shape(st) && Watermarks(st) && Counters(st)
    && f in st.tab && SockInv(st.tab[f].(flags := {Eof}))
    && (forall g :: g in st.tab && g != f ==> SockInv(st.tab[g]))
    && (forall g :: g in st.tab && g != f ==> FdInv(st.tab[g], g in st.fdsRead, g in st.fdsWrite))
    && st.fdsRead <= st.tab.Keys && st.fdsWrite <= st.tab.Keys
  }

  /** Masking and closing restores the invariant, even for a socket that was
      closed before; that case is what `redundant` counts. */
  lemma MaskAndCloseInv(st: State, f: nat, flag: Flag)
    requires InvExcept(st, f) && flag != Eof
    requires Eof in st.tab[f].flags ==> !st.tab[f].kind.Server?
    ensures Inv(MaskAndClose(st, f, flag))
  {
    var st' := MaskAndClose(st, f, flag);
    assert st'.tab == st.tab[f := st'.tab[f]];
    CountersClosed(st, st', f);
    assert Shape(st') && Watermarks(st');
    forall g | g in st'.tab
      ensures SockInv(st'.tab[g]) && FdInv(st'.tab[g], g in st'.fdsRead, g in st'.fdsWrite)
    {
      if g != f {
        assert SockInv(st.tab[g]) && FdInv(st.tab[g], g in st.fdsRead, g in st.fdsWrite);
      }
    }
  }

  lemma RoomWhenGivenUp(st: State, f: nat, flag: Flag)
    requires f in st.tab && Room(st, {f})
    ensures Room(MaskAndClose(st, f, flag), {})
  {
  }

  lemma GiveUpInv(st: State, f: nat, flag: Flag)
    requires Inv(st) && Room(st, {}) && f in st.tab && flag != Eof
    requires Eof in st.tab[f].flags ==> !st.tab[f].kind.Server?
    ensures Inv(MaskAndClose(st, f, flag)) && Room(MaskAndClose(st, f, flag), {})
  {
    hide MaskAndClose;
    assert SockInv(st.tab[f]);
    MaskAndCloseInv(st, f, flag);
    RoomWhenGivenUp(st, f, flag);
  }

  lemma UnlinkInv(st: State, f: nat)
    requires Inv(st) && f in st.tab && Eof in st.tab[f].flags
    ensures Inv(Unlink(st, f))
  {
    var st' := Unlink(st, f);
    FilterMembers(st.order, g => g != f);
    assert forall k :: Live(st'.tab, k) == Live(st.tab, k);
  }

  // ------------------------------------------------------------------
  // Closing
  // ------------------------------------------------------------------

  lemma {:induction false} CascadeInv(st: State, todo: seq<nat>, port: int)
    requires Inv(st)
    ensures var r := Cascade(st, todo, port); r.Ok? ==> Inv(r.st)
    decreases |todo|
  {
    if todo == [] {
    } else {
      var f := todo[0];
      if f !in st.tab || st.tab[f].port != port {
        CascadeInv(st, todo[1..], port);
      } else if Eof !in st.tab[f].flags {
        MarkClosedInv(st, f);
        CascadeInv(MarkClosed(st, f), todo[1..], port);
      }
    }
  }

  lemma FinalCloseInv(st: State, f: nat)
    requires Inv(st) && f in st.tab
    ensures var r := FinalClose(st, f); r.Ok? ==> Inv(r.st)
  {
    if Eof in st.tab[f].flags {
      UnlinkInv(st, f);
      var st' := Unlink(st, f);
      CascadeInv(st', st'.order, st.tab[f].port);
    }
  }

  // ------------------------------------------------------------------
  // The API
  // ------------------------------------------------------------------

  lemma NewSockInv(kind: Kind, port: int, tick: int)
    ensures SockInv(NewSock(kind, port, tick)) && FdInv(NewSock(kind, port, tick), false, false)
  {
  }

  lemma ListenInv(st: State, f: nat, port: int)
    requires Inv(st) && f !in st.tab
    ensures Inv(StartListening(st, f, port))
  {
    hide Inv, SockInv, FdInv, EnableRead, SharesPort;
    NewSockInv(Server, port, 0);
    var s := NewSock(Server, port, 0);
    var st1 := Register(st, f, s);
    RegisterInv(st, f, s);
    EnableReadInv(st1, f, false);
    ClashInv(EnableRead(st1, f, false), st.portClash || SharesPort(st, port));
  }

  lemma ClashInv(st: State, clash: bool)
    requires Inv(st)
    ensures Inv(st.(portClash := clash))
  {
    hide SockInv, FdInv, Live;
  }

  lemma ApplyInv(st: State, a: Action)
    requires Inv(st)
    ensures var r := Apply(st, a); r.Ok? ==> Inv(r.st)
  {
    hide Inv, SockInv, FdInv, Register, StartListening, EnableRead, DisableRead, EnableWrite, MarkClosed, FinalClose;
    if Apply(st, a).Ok? {
      match a
      case Connect(sys) =>
        if sys.Some? {
          NewSockInv(Client, sys.value.port, sys.value.now);
          RegisterInv(st, sys.value.fd, NewSock(Client, sys.value.port, sys.value.now));
        }
      case Listen(sys) =>
        if sys.Some? {
          ListenInv(st, sys.value.fd, sys.value.port);
        }
      case Accept(server, heapOk, sys) =>
        if heapOk {
          NewSockInv(Connection, sys.value.port, sys.value.now);
          RegisterInv(st, sys.value.fd, NewSock(Connection, sys.value.port, sys.value.now));
        }
      case ReadStart(f) => EnableReadInv(st, f, true);
      case ReadStop(f) => DisableReadInv(st, f);
      case Write(f, bytes, allocOk, growOk) => WriteInv(st, f, bytes, allocOk, growOk);
      case Close(f) => CloseInv(st, f);
    }
  }

  lemma CloseInv(st: State, f: nat)
    requires Inv(st) && IsOpen(st, f)
    ensures Inv(MarkClosed(st, f))
    ensures var r := FinalClose(MarkClosed(st, f), f); r.Ok? ==> Inv(r.st)
  {
    hide Inv, FinalClose;
    MarkClosedInv(st, f);
    FinalCloseInv(MarkClosed(st, f), f);
  }

  lemma WriteInv(st: State, f: nat, bytes: seq<byte>, allocOk: bool, growOk: bool)
    requires Inv(st)
    ensures var r := Apply(st, Write(f, bytes, allocOk, growOk)); r.Ok? ==> Inv(r.st)
  {
    hide Inv, PutWrite, Queue.Valid;
    var r := Apply(st, Write(f, bytes, allocOk, growOk));
    if r.Ok? && (WriteEnable in st.tab[f].flags || allocOk) {
      if WriteEnable !in st.tab[f].flags {
        EnableWriteInv(st, f);
        QueuedInv(EnableWrite(st, f), f, bytes, growOk);
      } else {
        QueuedInv(st, f, bytes, growOk);
      }
    }
  }

  lemma QueuedInv(st: State, f: nat, bytes: seq<byte>, growOk: bool)
    requires Inv(st) && f in st.tab && st.tab[f].wbuf.Some? && st.tab[f].wbuf.value.Valid()
    ensures Inv(WithSock(st, f, PutWrite(st.tab[f], bytes, growOk)))
  {
    assert SockInv(st.tab[f]) && FdInv(st.tab[f], f in st.fdsRead, f in st.fdsWrite);
    hide SockInv, Queue.Write, Queue.Accepted;
    PutWriteInv(st.tab[f], bytes, growOk);
    WithSockInv(st, f, PutWrite(st.tab[f], bytes, growOk));
  }

  /** A write extends the accepted stream by exactly what the buffer took. */
  lemma PutWriteInv(s: Sock, bytes: seq<byte>, growOk: bool)
    requires SockInv(s) && s.wbuf.Some?
    ensures SockInv(PutWrite(s, bytes, growOk))
  {
    var q := s.wbuf.value;
    var taken := bytes[..q.Accepted(|bytes|, growOk)];
    assert (s.log.sent + q.data) + taken == s.log.sent + (q.data + taken);
  }

  lemma {:induction false} CallsInv(st: State, acts: seq<Action>)
    requires Inv(st)
    ensures var r := Calls(st, acts); r.Ok? ==> Inv(r.st)
    decreases |acts|
  {
    if acts == [] {
    } else {
      ApplyInv(st, acts[0]);
      if Apply(st, acts[0]).Ok? {
        CallsInv(Apply(st, acts[0]).st, acts[1..]);
      }
    }
  }

  lemma {:induction false} CascadeRoom(st: State, todo: seq<nat>, port: int, busy: set<nat>)
    requires Room(st, busy)
    ensures var r := Cascade(st, todo, port); r.Ok? ==> Room(r.st, busy)
    decreases |todo|
  {
    if todo == [] {
    } else {
      var f := todo[0];
      if f !in st.tab || st.tab[f].port != port {
        CascadeRoom(st, todo[1..], port, busy);
      } else if Eof !in st.tab[f].flags {
        CascadeRoom(MarkClosed(st, f), todo[1..], port, busy);
      }
    }
  }

  lemma FinalCloseRoom(st: State, f: nat, busy: set<nat>)
    requires f in st.tab && Room(st, busy)
    ensures var r := FinalClose(st, f); r.Ok? ==> Room(r.st, busy)
  {
    var st' := Unlink(st, f);
    CascadeRoom(st', st'.order, st.tab[f].port, busy);
  }

  lemma ApplyRoom(st: State, a: Action, busy: set<nat>)
    requires Room(st, busy)
    ensures var r := Apply(st, a); r.Ok? ==> Room(r.st, busy)
  {
    hide Cascade;
    match a
    case Connect(sys) =>
    case Listen(sys) =>
    case Accept(_, heapOk, sys) =>
    case ReadStart(f) =>
    case ReadStop(f) =>
    case Write(f, _, _, _) =>
    case Close(f) =>
      if f in st.tab {
        FinalCloseRoom(MarkClosed(st, f), f, busy);
      }
  }

  lemma {:induction false} CallsRoom(st: State, acts: seq<Action>, busy: set<nat>)
    requires Room(st, busy)
    ensures var r := Calls(st, acts); r.Ok? ==> Room(r.st, busy)
    decreases |acts|
  {
    hide Apply, Room;
    if acts == [] {
    } else if Apply(st, acts[0]).Ok? {
      ApplyRoom(st, acts[0], busy);
      CallsRoom(Apply(st, acts[0]).st, acts[1..], busy);
    }
  }

  // ------------------------------------------------------------------
  // The handlers
  // ------------------------------------------------------------------

  /** Consuming a byte always leaves room: this is why the WBUF_RUNOUT branch is
      dead, and why only a reader that takes nothing can fill its buffer. */
  lemma DrainLeavesRoom(q: Queue, n: nat)
    requires q.Valid() && 0 < n <= |q.data|
    ensures 0 < Drain(q, n).Spare()
  {
  }

  lemma DrainInv(q: Queue, n: nat)
    requires q.Valid() && n <= |q.data|
    ensures Drain(q, n).Valid() && Drain(q, n).size == q.size && Drain(q, n).data == q.data[n..]
    ensures ReadBufferInv(q) ==> ReadBufferInv(Drain(q, n))
  {
  }

  lemma AfterRecvInv(s: Sock, d: Dispatch)
    requires SockInv(s) && !s.kind.Server?
    requires var q0 := if s.rbuf.Some? then s.rbuf.value else Empty(READ_BUF_SIZE);
      |Incoming(d.recv)| <= q0.Spare()
    ensures SockInv(AfterRecv(s, d))
  {
    var q0 := if s.rbuf.Some? then s.rbuf.value else Empty(READ_BUF_SIZE);
    assert (s.log.consumed + q0.data) + Incoming(d.recv) == s.log.consumed + (q0.data + Incoming(d.recv));
  }

  lemma AfterReadInv(s: Sock, taken: nat)
    requires SockInv(s) && s.rbuf.Some?
    ensures SockInv(AfterRead(s, taken))
  {
    var q := s.rbuf.value;
    var n := if taken > |q.data| then |q.data| else taken;
    DrainInv(q, n);
    assert s.log.consumed + q.data == (s.log.consumed + q.data[..n]) + q.data[n..];
  }

  lemma AfterSendInv(s: Sock, n: nat)
    requires SockInv(s) && s.wbuf.Some? && n <= |s.wbuf.value.data|
    ensures SockInv(AfterSend(s, n))
  {
    var q := s.wbuf.value;
    DrainInv(q, n);
    assert s.log.sent + q.data == (s.log.sent + q.data[..n]) + q.data[n..];
  }

  lemma GrowInv(st: State, f: nat)
    requires Inv(st) && Room(st, {f}) && f in st.tab && st.tab[f].rbuf.Some?
    requires st.tab[f].rbuf.value.Spare() == 0
    ensures Inv(GrowOrClose(st, f, true)) && Room(GrowOrClose(st, f, true), {})
  {
    hide Inv, Room, SockInv, FdInv;
    var s := st.tab[f];
    var s' := s.(rbuf := Some(s.rbuf.value.(size := 2 * s.rbuf.value.size)));
    SocketAt(st, f);
    GrownInv(s);
    SameFd(s, s', f in st.fdsRead, f in st.fdsWrite);
    WithSockInv(st, f, s');
    GrownRoom(st, f, s');
  }

  lemma SocketAt(st: State, f: nat)
    requires Inv(st) && f in st.tab
    ensures SockInv(st.tab[f]) && FdInv(st.tab[f], f in st.fdsRead, f in st.fdsWrite)
  {
    hide SockInv, FdInv;
  }

  lemma SameFd(s: Sock, s': Sock, reading: bool, writing: bool)
    requires FdInv(s, reading, writing) && s' == s.(rbuf := s'.rbuf)
    ensures FdInv(s', reading, writing)
  {
  }

  lemma GrownRoom(st: State, f: nat, s: Sock)
    requires Room(st, {f}) && f in st.tab && s.rbuf.Some? && 0 < s.rbuf.value.Spare()
    ensures Room(WithSock(st, f, s), {})
  {
  }

  /** Doubling a full buffer stays within the bound: at least an eighth of the new
      size is unread. */
  lemma GrownInv(s: Sock)
    requires SockInv(s) && s.rbuf.Some? && s.rbuf.value.Spare() == 0
    ensures SockInv(s.(rbuf := Some(s.rbuf.value.(size := 2 * s.rbuf.value.size))))
    ensures 0 < s.rbuf.value.(size := 2 * s.rbuf.value.size).Spare()
  {
  }

  lemma GrowOrCloseInv(st: State, f: nat, growOk: bool)
    requires Inv(st) && Room(st, {f}) && f in st.tab && st.tab[f].rbuf.Some?
    ensures Inv(GrowOrClose(st, f, growOk)) && Room(GrowOrClose(st, f, growOk), {})
  {
    if st.tab[f].rbuf.value.Spare() == 0 {
      assert SockInv(st.tab[f]);
      if growOk {
        GrowInv(st, f);
      } else {
        hide MaskAndClose;
        MaskAndCloseInv(st, f, RbufRunout);
        RoomWhenGivenUp(st, f, RbufRunout);
      }
    }
  }

  lemma ReceivedInv(st: State, f: nat, d: Dispatch)
    requires Inv(st) && Room(st, {}) && IsOpen(st, f) && !st.tab[f].kind.Server?
    requires var q0 := if st.tab[f].rbuf.Some? then st.tab[f].rbuf.value else Empty(READ_BUF_SIZE);
      |Incoming(d.recv)| <= q0.Spare()
    ensures var st1 := WithSock(st, f, AfterRecv(st.tab[f], d)); Inv(st1) && Room(st1, {f})
  {
    AfterRecvInv(st.tab[f], d);
    WithSockInv(st, f, AfterRecv(st.tab[f], d));
  }

  lemma ConsumedInv(st: State, f: nat, taken: nat, growOk: bool)
    requires Inv(st) && Room(st, {f}) && f in st.tab && st.tab[f].rbuf.Some?
    ensures var st' := GrowOrClose(WithSock(st, f, AfterRead(st.tab[f], taken)), f, growOk); Inv(st') && Room(st', {})
  {
    hide GrowOrClose;
    AfterReadInv(st.tab[f], taken);
    WithSockInv(st, f, AfterRead(st.tab[f], taken));
    GrowOrCloseInv(WithSock(st, f, AfterRead(st.tab[f], taken)), f, growOk);
  }

  lemma HandleRecvInv(st: State, f: nat, d: Dispatch)
    requires Inv(st) && Room(st, {}) && f in st.tab && st.inLoop
    ensures var r := HandleRecv(st, f, d); r.Ok? ==> Inv(r.st) && Room(r.st, {})
  {
    hide Inv, Room, GrowOrClose, AfterRecv, AfterRead, Calls, Queue.Spare;
    var s := st.tab[f];
    if !HandleRecv(st, f, d).Ok? {
    } else if s.kind.Server? {
      CallsInv(st, d.acts);
      CallsRoom(st, d.acts, {});
    } else if s.rbuf.Some? || d.rbufOk {
      ReceivedInv(st, f, d);
      var st1 := WithSock(st, f, AfterRecv(s, d));
      CallsInv(st1, d.acts);
      CallsRoom(st1, d.acts, {f});
      ConsumedInv(Calls(st1, d.acts).st, f, d.taken, d.growOk);
    }
  }

  /** After a send the buffer has room, so the socket is never given up for a
      full write buffer: the handler only takes the sent bytes off the queue. */
  lemma WbufRunoutIsDead(st: State, f: nat, d: Dispatch)
    requires f in st.tab && st.tab[f].wbuf.Some? && st.tab[f].wbuf.value.Valid()
    requires HandleSend(st, f, d).Ok? && d.sent > 0 && st.tab[f].wbuf.value.data != []
    ensures HandleSend(st, f, d).st == WithSock(st, f, AfterSend(st.tab[f], d.sent))
    ensures var s := HandleSend(st, f, d).st.tab[f];
      && d.sent <= |st.tab[f].wbuf.value.data| && Held(s.wbuf) == st.tab[f].wbuf.value.data[d.sent..]
      && s.wbuf.value.Spare() > 0 && s.flags == st.tab[f].flags
  {
    hide MaskAndClose;
    DrainLeavesRoom(st.tab[f].wbuf.value, d.sent);
    DrainInv(st.tab[f].wbuf.value, d.sent);
  }

  lemma SentInv(st: State, f: nat, n: nat)
    requires Inv(st) && Room(st, {}) && f in st.tab && st.tab[f].wbuf.Some? && n <= |st.tab[f].wbuf.value.data|
    ensures Inv(WithSock(st, f, AfterSend(st.tab[f], n))) && Room(WithSock(st, f, AfterSend(st.tab[f], n)), {})
  {
    assert SockInv(st.tab[f]) && FdInv(st.tab[f], f in st.fdsRead, f in st.fdsWrite);
    hide SockInv, Drain;
    AfterSendInv(st.tab[f], n);
    WithSockInv(st, f, AfterSend(st.tab[f], n));
  }

  lemma WriteBufferValid(st: State, f: nat)
    requires Inv(st) && f in st.tab && st.tab[f].wbuf.Some?
    ensures st.tab[f].wbuf.value.Valid()
  {
    assert SockInv(st.tab[f]);
  }

  lemma HandleSendInv(st: State, f: nat, d: Dispatch)
    requires Inv(st) && Room(st, {}) && f in st.tab
    ensures var r := HandleSend(st, f, d); r.Ok? ==> Inv(r.st) && Room(r.st, {})
  {
    hide Inv, Room, MaskAndClose, Drain, Queue.Valid;
    var s := st.tab[f];
    if !HandleSend(st, f, d).Ok? || s.wbuf.value.data == [] {
    } else if d.sent < 0 {
      GiveUpInv(st, f, WriteFailed);
    } else if d.sent > 0 {
      SentInv(st, f, d.sent);
      WriteBufferValid(st, f);
      WbufRunoutIsDead(st, f, d);
    }
  }

  // ------------------------------------------------------------------
  // Polling
  // ------------------------------------------------------------------

  lemma VisitInv(st: State, f: nat, r: set<nat>, w: set<nat>, d: Dispatch)
    requires Inv(st) && Room(st, {}) && st.inLoop
    ensures var v := Visit(st, f, r, w, d); v.Ok? ==> Inv(v.st) && Room(v.st, {}) && v.st.inLoop
  {
    if f in r && f in st.tab {
      HandleRecvInv(st, f, d);
      HandleRecvInLoop(st, f, d);
    }
    var r1 := if f !in r then Ok(st) else if f !in st.tab then LoopStop else HandleRecv(st, f, d);
    if r1.Ok? && f in w && f in r1.st.tab {
      HandleSendInv(r1.st, f, d);
    }
  }

  lemma {:induction false} CallsInLoop(st: State, acts: seq<Action>)
    requires st.inLoop
    ensures var r := Calls(st, acts); r.Ok? ==> r.st.inLoop
    decreases |acts|
  {
    if acts == [] {
    } else if Apply(st, acts[0]).Ok? {
      CallsInLoop(Apply(st, acts[0]).st, acts[1..]);
    }
  }

  lemma HandleRecvInLoop(st: State, f: nat, d: Dispatch)
    requires f in st.tab && st.inLoop
    ensures var r := HandleRecv(st, f, d); r.Ok? ==> r.st.inLoop
  {
    CallsInLoop(st, d.acts);
    CallsInLoop(WithSock(st, f, AfterRecv(st.tab[f], d)), d.acts);
  }

  lemma {:induction false} DispatchingInv(st: State, todo: seq<nat>, r: set<nat>, w: set<nat>, world: World,
                                          left: int)
    requires Inv(st) && Room(st, {}) && st.inLoop
    ensures var p := Dispatching(st, todo, r, w, world, left); p.Ok? ==> Inv(p.st) && Room(p.st, {})
    decreases |todo|
  {
    if todo == [] {
    } else {
      VisitInv(st, todo[0], r, w, world(todo[0]));
      var v := Visit(st, todo[0], r, w, world(todo[0]));
      if v.Ok? {
        DispatchingInv(v.st, todo[1..], r, w, world, left);
        DispatchingInv(v.st, todo[1..], r, w, world, left - 1);
      }
    }
  }

  // ------------------------------------------------------------------
  // The closing pass
  // ------------------------------------------------------------------

  lemma CloseVisitInv(st: State, f: nat, now: int)
    requires Inv(st) && Room(st, {}) && f in st.tab
    ensures var r := CloseVisit(st, f, now); r.Ok? ==> Inv(r.st) && Room(r.st, {})
  {
    var st1 := if Expired(st.tab[f], now) then MaskAndClose(st, f, Timeout) else st;
    if Expired(st.tab[f], now) {
      GiveUpInv(st, f, Timeout);
    }
    FinalCloseInv(st1, f);
    FinalCloseRoom(st1, f, {});
  }

  lemma {:induction false} ClosePassInv(st: State, todo: seq<nat>, clock: Clock)
    requires Inv(st) && Room(st, {})
    ensures var r := ClosePass(st, todo, clock); r.Ok? ==> Inv(r.st) && Room(r.st, {})
    decreases |todo|
  {
    if todo == [] {
    } else if todo[0] in st.tab {
      CloseVisitInv(st, todo[0], clock(todo[0]));
      var r := CloseVisit(st, todo[0], clock(todo[0]));
      if r.Ok? {
        ClosePassInv(r.st, todo[1..], clock);
      }
    }
  }

  // ------------------------------------------------------------------
  // Runs
  // ------------------------------------------------------------------

  lemma InLoopInv(st: State, b: bool)
    requires Inv(st) && Room(st, {})
    ensures Inv(st.(inLoop := b)) && Room(st.(inLoop := b), {})
  {
  }

  lemma PollInv(st: State, sel: Select, world: World)
    requires Inv(st) && Room(st, {}) && st.inLoop
    ensures var p := Poll(st, sel, world); p.Ok? ==> Inv(p.st) && Room(p.st, {})
  {
    hide Inv, Room, Visit;
    if sel.Ready? {
      DispatchingInv(st, st.order, sel.r, sel.w, world, |sel.r| + |sel.w|);
    }
  }

  lemma LoopInv(st: State, sel: Select, world: World, clock: Clock)
    requires Inv(st) && Room(st, {})
    ensures var r := Loop(st, sel, world, clock); r.Ok? ==> Inv(r.st) && Room(r.st, {})
  {
    hide Inv, Room, Poll, ClosePass;
    InLoopInv(st, true);
    var st0 := st.(inLoop := true);
    PollInv(st0, sel, world);
    var p := Poll(st0, sel, world);
    if p.Ok? && !sel.Broken? {
      ClosePassInv(p.st, p.st.order, clock);
      var c := DoClose(p.st, clock);
      if c.Ok? {
        InLoopInv(c.st, false);
      }
    }
  }

  lemma StepInv(st: State, e: Event)
    requires Inv(st) && Room(st, {})
    ensures var r := Step(st, e); r.Ok? ==> Inv(r.st) && Room(r.st, {})
  {
    hide Inv, Room, Apply, Loop;
    match e
    case Call(a) =>
      ApplyInv(st, a);
      ApplyRoom(st, a, {});
    case Turn(sel, world, clock) =>
      LoopInv(st, sel, world, clock);
  }

  /** Every state a run reaches from the initial one satisfies the invariant. */
  lemma {:induction false} RunInv(st: State, events: seq<Event>)
    requires Inv(st) && Room(st, {})
    ensures var r := Run(st, events); r.Ok? ==> Inv(r.st) && Room(r.st, {})
    decreases |events|
  {
    if events == [] {
    } else {
      StepInv(st, events[0]);
      var r := Step(st, events[0]);
      if r.Ok? {
        RunInv(r.st, events[1..]);
      }
    }
  }
}
