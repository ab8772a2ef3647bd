/** The main results about zsocket.c: statements about every state that some run
    reaches, and about what one more turn of the loop does to it. */
module Runs {
  import opened Basics
  import opened ByteQueue
  import opened Sockets
  import opened LoopInvariant
  import opened Callbacks
  import opened Closing

  // ------------------------------------------------------------------
  // Servers stay behind their connections
  // ------------------------------------------------------------------

  /** As long as listen never reused a port, every socket of a port stands in
      front of the server of that port. */
  ghost predicate Orderly(st: State) {
    Shape(st) && (!st.portClash ==> ServersLast(st))
  }

  /** Nothing that decides about order changed. */
  ghost predicate SameOrder(st: State, st': State) {
    && st'.order == st.order && st'.portClash == st.portClash && st'.tab.Keys == st.tab.Keys
    && forall f :: f in st.tab ==> st'.tab[f].kind == st.tab[f].kind && st'.tab[f].port == st.tab[f].port
  }

  lemma SameOrderOrderly(st: State, st': State)
    requires Orderly(st) && SameOrder(st, st')
    ensures Orderly(st')
  {
    if !st'.portClash {
      forall i, j | 0 <= i < j < |st'.order| && st'.order[i] in st'.tab && st'.order[j] in st'.tab
                    && st'.tab[st'.order[i]].kind.Server?
        ensures st'.tab[st'.order[j]].port != st'.tab[st'.order[i]].port
      {
        assert st.order[i] in st.tab && st.order[j] in st.tab;
      }
    }
  }

  lemma RegisterOrderly(st: State, f: nat, s: Sock)
    requires Orderly(st) && f !in st.tab && (s.kind.Server? ==> !SharesPort(st, s.port))
    ensures Orderly(Register(st, f, s))
  {
    var st' := Register(st, f, s);
    if !st'.portClash {
      forall i, j | 0 <= i < j < |st'.order| && st'.order[i] in st'.tab && st'.order[j] in st'.tab
                    && st'.tab[st'.order[i]].kind.Server?
        ensures st'.tab[st'.order[j]].port != st'.tab[st'.order[i]].port
      {
        assert st'.order[j] == st.order[j - 1];
        if i > 0 {
          assert st'.order[i] == st.order[i - 1];
        }
      }
    }
  }

  lemma SplitAround(st: State, f: nat) returns (kept: seq<nat>, rest: seq<nat>)
    requires Shape(st) && f in st.tab
    ensures st.order == kept + [f] + rest && Filter(st.order, g => g != f) == kept + rest
  {
    var i :| 0 <= i < |st.order| && st.order[i] == f;
    kept, rest := st.order[..i], st.order[i + 1..];
    FilterOut(kept, f, rest);
  }

  lemma RemoveOrderly(st: State, f: nat)
    requires Orderly(st) && f in st.tab
    ensures Orderly(Unlink(st, f))
  {
    UnlinkShape(st, f);
    var kept, rest := SplitAround(st, f);
    if !st.portClash {
      hide Filter;
      SublistServersLast(st, Unlink(st, f), kept, f, rest);
    }
  }

  /** Listening reuses a port only by setting `portClash`. */
  lemma ListenOrderly(st: State, f: nat, port: int)
    requires Orderly(st) && f !in st.tab
    ensures Orderly(StartListening(st, f, port))
  {
    var s := NewSock(Server, port, 0);
    var st1 := Register(st, f, s);
    if SharesPort(st, port) {
      assert Shape(st1);
    } else {
      RegisterOrderly(st, f, s);
      SameOrderOrderly(st1, EnableRead(st1, f, false));
    }
  }

  lemma CloseOrderly(st: State, f: nat)
    requires Orderly(st) && f in st.tab && Apply(st, Close(f)).Ok?
    ensures Orderly(Apply(st, Close(f)).st)
  {
    hide Orderly, Unlink;
    SameOrderOrderly(st, MarkClosed(st, f));
    RemoveOrderly(MarkClosed(st, f), f);
  }

  lemma WriteOrderly(st: State, f: nat, bytes: seq<byte>, allocOk: bool, growOk: bool)
    requires Orderly(st) && Apply(st, Write(f, bytes, allocOk, growOk)).Ok?
    ensures Orderly(Apply(st, Write(f, bytes, allocOk, growOk)).st)
  {
    hide Orderly, Queue.Write, Queue.Accepted, Queue.Valid;
    SameOrderOrderly(st, Apply(st, Write(f, bytes, allocOk, growOk)).st);
  }

  lemma ApplyOrderly(st: State, a: Action)
    requires Orderly(st) && Apply(st, a).Ok?
    ensures Orderly(Apply(st, a).st)
  {
    hide Orderly, StartListening, Register, FinalClose;
    match a
    case Connect(sys) =>
      if sys.Some? {
        RegisterOrderly(st, sys.value.fd, NewSock(Client, sys.value.port, sys.value.now));
      }
    case Listen(sys) =>
      if sys.Some? {
        ListenOrderly(st, sys.value.fd, sys.value.port);
      }
    case Accept(server, heapOk, sys) =>
      if heapOk {
        RegisterOrderly(st, sys.value.fd, NewSock(Connection, sys.value.port, sys.value.now));
      }
    case ReadStart(f) => SameOrderOrderly(st, EnableRead(st, f, true));
    case ReadStop(f) => SameOrderOrderly(st, DisableRead(st, f));
    case Write(f, bytes, allocOk, growOk) => WriteOrderly(st, f, bytes, allocOk, growOk);
    case Close(f) => CloseOrderly(st, f);
  }

  lemma {:induction false} CallsOrderly(st: State, acts: seq<Action>)
    requires Orderly(st) && Calls(st, acts).Ok?
    ensures Orderly(Calls(st, acts).st)
    decreases |acts|
  {
    hide Orderly, Apply;
    if acts == [] {
    } else {
      ApplyOrderly(st, acts[0]);
      CallsOrderly(Apply(st, acts[0]).st, acts[1..]);
    }
  }

  lemma TailSameOrder(st: State, f: nat, taken: nat, growOk: bool)
    requires f in st.tab && st.tab[f].rbuf.Some?
    ensures SameOrder(st, GrowOrClose(WithSock(st, f, AfterRead(st.tab[f], taken)), f, growOk))
  {
    hide Drain;
  }

  lemma RecvOrderly(st: State, f: nat, d: Dispatch)
    requires Orderly(st) && f in st.tab && HandleRecv(st, f, d).Ok?
    ensures Orderly(HandleRecv(st, f, d).st)
  {
    hide Orderly, AfterRead, GrowOrClose;
    var s := st.tab[f];
    if s.kind.Server? {
      CallsOrderly(st, d.acts);
    } else if s.rbuf.Some? || d.rbufOk {
      var st1 := WithSock(st, f, AfterRecv(s, d));
      SameOrderOrderly(st, st1);
      CallsOrderly(st1, d.acts);
      var st2 := Calls(st1, d.acts).st;
      TailSameOrder(st2, f, d.taken, d.growOk);
      SameOrderOrderly(st2, HandleRecv(st, f, d).st);
    }
  }

  lemma WithSockSameOrder(st: State, f: nat, s: Sock)
    requires f in st.tab && s.kind == st.tab[f].kind && s.port == st.tab[f].port
    ensures SameOrder(st, WithSock(st, f, s))
  {
  }

  lemma MaskSameOrder(st: State, f: nat, flag: Flag)
    requires f in st.tab
    ensures SameOrder(st, MaskAndClose(st, f, flag))
  {
  }

  lemma SendOrderly(st: State, f: nat, d: Dispatch)
    requires Orderly(st) && f in st.tab && HandleSend(st, f, d).Ok?
    ensures Orderly(HandleSend(st, f, d).st)
  {
    hide Orderly, SameOrder, MaskAndClose, Drain;
    var s := st.tab[f];
    if s.wbuf.value.data != [] && d.sent != 0 {
      if d.sent < 0 {
        MaskSameOrder(st, f, WriteFailed);
        SameOrderOrderly(st, MaskAndClose(st, f, WriteFailed));
      } else {
        var st' := WithSock(st, f, AfterSend(s, d.sent));
        WithSockSameOrder(st, f, AfterSend(s, d.sent));
        SameOrderOrderly(st, st');
        if st'.tab[f].wbuf.value.Spare() == 0 {
          MaskSameOrder(st', f, WbufRunout);
          SameOrderOrderly(st', MaskAndClose(st', f, WbufRunout));
        }
      }
    }
  }

  lemma VisitOrderly(st: State, f: nat, r: set<nat>, w: set<nat>, d: Dispatch)
    requires Orderly(st) && Visit(st, f, r, w, d).Ok?
    ensures Orderly(Visit(st, f, r, w, d).st)
  {
    hide Orderly, HandleRecv, HandleSend;
    var st1 := st;
    if f in r {
      RecvOrderly(st, f, d);
      st1 := HandleRecv(st, f, d).st;
    }
    if f in w {
      SendOrderly(st1, f, d);
    }
  }

  lemma {:induction false} DispatchingOrderly(st: State, todo: seq<nat>, r: set<nat>, w: set<nat>, world: World,
                                              left: int)
    requires Orderly(st) && Dispatching(st, todo, r, w, world, left).Ok?
    ensures Orderly(Dispatching(st, todo, r, w, world, left).st)
    decreases |todo|
  {
    hide Orderly, Visit;
    if todo == [] {
    } else {
      var f := todo[0];
      VisitOrderly(st, f, r, w, world(f));
      var st1 := Visit(st, f, r, w, world(f)).st;
      if f !in r && f !in w {
        DispatchingOrderly(st1, todo[1..], r, w, world, left);
      } else if left - 1 != 0 {
        DispatchingOrderly(st1, todo[1..], r, w, world, left - 1);
      }
    }
  }

  lemma PollOrderly(st: State, sel: Select, world: World)
    requires Orderly(st) && Poll(st, sel, world).Ok?
    ensures Orderly(Poll(st, sel, world).st)
  {
    hide Orderly, Visit;
    if Poll(st, sel, world) != Ok(st) {
      DispatchingOrderly(st, st.order, sel.r, sel.w, world, |sel.r| + |sel.w|);
    }
  }

  // ------------------------------------------------------------------
  // The closing pass over a reachable state
  // ------------------------------------------------------------------

  lemma {:induction false} CascadeFlags(st: State, todo: seq<nat>, port: int)
    requires Cascade(st, todo, port).Ok?
    ensures Cascade(st, todo, port).st.portClash == st.portClash
    ensures Cascade(st, todo, port).st.inLoop == st.inLoop
    ensures Cascade(st, todo, port).st.redundant == st.redundant
    decreases |todo|
  {
    if todo == [] {
    } else {
      var f := todo[0];
      CascadeFlags(if f in st.tab && st.tab[f].port == port then MarkClosed(st, f) else st, todo[1..], port);
    }
  }

  lemma FinalCloseFlags(st: State, f: nat)
    requires f in st.tab && FinalClose(st, f).Ok?
    ensures var st' := FinalClose(st, f).st;
      st'.portClash == st.portClash && st'.inLoop == st.inLoop && st'.redundant == st.redundant
  {
    var st' := Unlink(st, f);
    if st.tab[f].kind.Server? && st.inLoop {
      CascadeFlags(st', st'.order, st.tab[f].port);
    }
  }

  lemma {:induction false} ClosePassFlags(st: State, todo: seq<nat>, clock: Clock)
    requires ClosePass(st, todo, clock).Ok?
    ensures var st' := ClosePass(st, todo, clock).st; st'.portClash == st.portClash && st'.inLoop == st.inLoop
    decreases |todo|
  {
    hide FinalClose;
    if todo == [] {
    } else {
      var f, now := todo[0], clock(todo[0]);
      var st1 := if Expired(st.tab[f], now) then MaskAndClose(st, f, Timeout) else st;
      if Eof in st1.tab[f].flags {
        FinalCloseFlags(st1, f);
      }
      ClosePassFlags(CloseVisit(st, f, now).st, todo[1..], clock);
    }
  }

  /** Cascade safety. In a run that never listened on a port in use, the closing
      pass gets through, and it does just what its loop is meant to do. */
  lemma CascadeSafety(st: State, clock: Clock)
    requires Orderly(st) && !st.portClash && st.inLoop
    ensures DoClose(st, clock).Ok?
    ensures var st' := DoClose(st, clock).st;
      && st'.order == Filter(st.order, Stays(st, clock)) && Shape(st') && ServersLast(st') && st'.inLoop
      && (forall g :: g in st'.tab ==> g in st.tab)
      && (forall g :: g in st'.tab ==>
            st'.tab[g] == if ServerGoes(st, st.order, st.tab[g].port) then Marked(st.tab[g]) else st.tab[g])
  {
    hide ClosePass, Behind, Remains, Stays, Filter, Harmless, ServersLast, ServerGoes;
    ServersLastImplies(st, clock);
    PassStopsExactly(st, [], st.order, clock);
    PassResult(st, [], st.order, clock);
    PassKeepsServersLast(st, [], st.order, clock);
    ClosePassFlags(st, st.order, clock);
    NobodyAlong(st, clock);
    var stay := Filter(st.order, Stays(st, clock));
    assert [] + stay == stay && stay + [] == stay;
  }

  lemma NobodyAlong(st: State, clock: Clock)
    requires forall f :: f in st.tab ==> !Behind(st, st.order, f)
    ensures Filter(st.order, Remains(st, st.order, clock)) == Filter(st.order, Stays(st, clock))
  {
    hide Behind;
    FilterAgree(st.order, Remains(st, st.order, clock), Stays(st, clock));
  }

  lemma DoCloseFlags(st: State, clock: Clock)
    requires DoClose(st, clock).Ok?
    ensures var st' := DoClose(st, clock).st; st'.portClash == st.portClash && st'.inLoop == st.inLoop
  {
    ClosePassFlags(st, st.order, clock);
  }

  lemma LoopOrderly(st: State, sel: Select, world: World, clock: Clock)
    requires Orderly(st) && Inv(st) && Room(st, {}) && Loop(st, sel, world, clock).Ok?
    ensures Orderly(Loop(st, sel, world, clock).st)
  {
    hide Poll, DoClose, Inv, Room;
    var st0 := st.(inLoop := true);
    SameOrderOrderly(st, st0);
    if !sel.Broken? {
      PollOrderly(st0, sel, world);
      var p := Poll(st0, sel, world).st;
      DoCloseFlags(p, clock);
      var c := DoClose(p, clock).st;
      if !p.portClash {
        PollInLoop(st0, sel, world);
        CascadeSafety(p, clock);
      } else {
        InLoopInv(st, true);
        PollInv(st0, sel, world);
        DoCloseShape(p, clock);
      }
      SameOrderOrderly(c, c.(inLoop := false));
    }
  }

  lemma DoCloseShape(st: State, clock: Clock)
    requires Inv(st) && Room(st, {}) && DoClose(st, clock).Ok?
    ensures Shape(DoClose(st, clock).st)
  {
    hide ClosePass;
    ClosePassInv(st, st.order, clock);
  }

  lemma {:induction false} DispatchingInLoop(st: State, todo: seq<nat>, r: set<nat>, w: set<nat>, world: World,
                                             left: int)
    requires st.inLoop && Dispatching(st, todo, r, w, world, left).Ok?
    ensures Dispatching(st, todo, r, w, world, left).st.inLoop
    decreases |todo|
  {
    hide HandleRecv;
    if todo == [] {
    } else {
      var f, d := todo[0], world(todo[0]);
      if f in r {
        HandleRecvInLoop(st, f, d);
      }
      var st1 := Visit(st, f, r, w, d).st;
      if f !in r && f !in w {
        DispatchingInLoop(st1, todo[1..], r, w, world, left);
      } else if left - 1 != 0 {
        DispatchingInLoop(st1, todo[1..], r, w, world, left - 1);
      }
    }
  }

  lemma PollInLoop(st: State, sel: Select, world: World)
    requires st.inLoop && Poll(st, sel, world).Ok?
    ensures Poll(st, sel, world).st.inLoop
  {
    hide Visit;
    if Poll(st, sel, world) != Ok(st) {
      DispatchingInLoop(st, st.order, sel.r, sel.w, world, |sel.r| + |sel.w|);
    }
  }

  // ------------------------------------------------------------------
  // Reachable states
  // ------------------------------------------------------------------

  ghost predicate Reachable(st: State) {
    exists events :: Run(INITIAL, events) == Ok(st)
  }

  lemma {:induction false} RunOrderly(st: State, events: seq<Event>)
    requires Inv(st) && Room(st, {}) && Orderly(st) && Run(st, events).Ok?
    ensures Orderly(Run(st, events).st)
    decreases |events|
  {
    hide Inv, Room, Orderly, Apply, Loop;
    if events == [] {
    } else {
      StepInv(st, events[0]);
      match events[0] {
        case Call(a) => ApplyOrderly(st, a);
        case Turn(sel, world, clock) => LoopOrderly(st, sel, world, clock);
      }
      RunOrderly(Step(st, events[0]).st, events[1..]);
    }
  }

  /** The initial state, and no other. */
  ghost predicate Begins(st: State) {
    && |st.order| == 0 && |st.tab| == 0 && |st.fdsRead| == 0 && |st.fdsWrite| == 0
    && st.nfdsRead == 0 && st.nfdsWrite == 0 && !st.portClash && !st.inLoop
    && st.status == Status(0, 0, 0, Tally(0, 0, 0)) && st.redundant == Tally(0, 0, 0)
  }

  lemma OnlyInitial(st: State)
    ensures Begins(st) <==> st == INITIAL
  {
  }

  lemma BeginsCounters(st: State)
    requires Begins(st)
    ensures Counters(st)
  {
    forall k ensures |Live(st.tab, k)| == 0 {
      assert Live(st.tab, k) == {};
    }
    hide Live;
  }

  /** Nothing registered and nothing selected: the invariant is a matter of the
      counters alone. */
  lemma BeginsInv(st: State)
    requires Begins(st)
    ensures Inv(st) && Room(st, {}) && AllAgree(st) && Orderly(st)
  {
    hide Counters;
    BeginsCounters(st);
  }

  /** Every reachable state satisfies the whole invariant. */
  lemma ReachableInv(st: State)
    requires Reachable(st)
    ensures Inv(st) && Room(st, {}) && Orderly(st)
  {
    hide Inv, Room, Orderly, Step, Begins;
    var events :| Run(INITIAL, events) == Ok(st);
    OnlyInitial(INITIAL);
    BeginsInv(INITIAL);
    RunInv(INITIAL, events);
    RunOrderly(INITIAL, events);
  }

  /** Streams and buffers of any socket in any reachable state: received is
      consumed followed by buffered; accepted is handed to send followed by
      buffered; capacities are bounded by what was ever buffered at once; and
      an open socket has room to receive. */
  lemma ReachableSocket(st: State, f: nat)
    requires Reachable(st) && f in st.tab
    ensures var s := st.tab[f];
      && s.log.received == s.log.consumed + Held(s.rbuf)
      && s.log.accepted == s.log.sent + Held(s.wbuf)
      && (s.rbuf.Some? ==> s.rbuf.value.size <= Max(READ_BUF_SIZE, 8 * s.log.readPeak))
      && (s.wbuf.Some? ==> s.wbuf.value.size <= Max(WRITE_BUF_SIZE, 2 * s.log.writePeak))
      && (s.rbuf.Some? && Eof !in s.flags ==> 0 < s.rbuf.value.Spare())
  {
    ReachableInv(st);
    assert SockInv(st.tab[f]);
  }

  /** Descriptors in any reachable state: both sets hold only open registered
      sockets, and select is asked about every one of them. */
  lemma ReachableDescriptors(st: State, f: nat)
    requires Reachable(st)
    ensures f in st.fdsRead + st.fdsWrite ==> IsOpen(st, f) && f < MaxFds(st)
    ensures IsOpen(st, f) && ReadEnable in st.tab[f].flags ==> f in st.fdsRead
    ensures IsOpen(st, f) ==> (f in st.fdsWrite <==> st.tab[f].wbuf.Some?)
    ensures NoDup(st.order) && (f in st.order <==> f in st.tab)
    ensures 0 <= st.nfdsRead && 0 <= st.nfdsWrite
  {
    ReachableInv(st);
  }

  /** Counters in any reachable state. */
  lemma ReachableCounters(st: State, k: Kind)
    requires Reachable(st)
    ensures st.status.total == st.status.current + st.status.closed
    ensures st.status.current == st.status.live.client + st.status.live.server + st.status.live.connection
    ensures st.status.live.Get(k) == |Live(st.tab, k)| - st.redundant.Get(k)
    ensures st.redundant.Get(k) >= 0 && st.redundant.server == 0
  {
    ReachableInv(st);
  }

  /** In any reachable state, if no callback of the next poll listens on a port
      in use either, the next turn of the loop cannot stop in its closing pass. */
  lemma ReachableCascadeSafety(st: State, sel: Select, world: World, clock: Clock)
    requires Reachable(st)
    ensures var p := Poll(st.(inLoop := true), sel, world);
      p.Ok? && !p.st.portClash ==> DoClose(p.st, clock).Ok?
  {
    hide Inv, Room, Poll, DoClose, SharesPort;
    ReachableInv(st);
    var st0 := st.(inLoop := true);
    SameOrderOrderly(st, st0);
    var p := Poll(st0, sel, world);
    if p.Ok? && !p.st.portClash {
      PollOrderly(st0, sel, world);
      PollInLoop(st0, sel, world);
      CascadeSafety(p.st, clock);
    }
  }
}
