/** What holds while a turn of the loop is under way, between one visit and the
    next, and what a whole turn does to sockets that were closed before it. */
module Turns {
  import opened Basics
  import opened ByteQueue
  import opened Sockets
  import opened LoopInvariant
  import opened Callbacks
  import opened FlagAgreement
  import opened Polling
  import opened Closing
  import opened Runs

  // ------------------------------------------------------------------
  // Between two visits
  // ------------------------------------------------------------------

  lemma {:induction false} SweepInv(st: State, todo: seq<nat>, r: set<nat>, w: set<nat>, world: World)
    requires Inv(st) && Room(st, {}) && st.inLoop
    ensures var p := Sweep(st, todo, r, w, world); p.Ok? ==> Inv(p.st) && Room(p.st, {}) && p.st.inLoop
    decreases |todo|
  {
    hide Inv, Room, Visit;
    if todo == [] {
    } else {
      var v := Visit(st, todo[0], r, w, world(todo[0]));
      VisitInv(st, todo[0], r, w, world(todo[0]));
      if v.Ok? {
        SweepInv(v.st, todo[1..], r, w, world);
      }
    }
  }

  lemma {:induction false} SweepSplits(st: State, past: seq<nat>, rest: seq<nat>, r: set<nat>, w: set<nat>,
                                       world: World)
    requires Sweep(st, past, r, w, world).Ok?
    ensures Sweep(st, past + rest, r, w, world) == Sweep(Sweep(st, past, r, w, world).st, rest, r, w, world)
    decreases |past|
  {
    hide Visit;
    if past == [] {
      assert past + rest == rest;
    } else {
      assert (past + rest)[1..] == past[1..] + rest;
      SweepSplits(Visit(st, past[0], r, w, world(past[0])).st, past[1..], rest, r, w, world);
    }
  }

  /** The buffers of a socket and the bytes that went through it, at the moment
      it is served: recv is called with room to receive, and the read callback is
      shown exactly the bytes received and not yet consumed. */
  ghost predicate ReadsWell(s: Sock, d: Dispatch) {
    && (Eof !in s.flags ==> 0 < (if s.rbuf.Some? then s.rbuf.value else Empty(READ_BUF_SIZE)).Spare())
    && (!s.kind.Server? ==>
        var s' := AfterRecv(s, d);
        && s'.log.received == s.log.received + Incoming(d.recv)
        && |s'.log.consumed| <= |s'.log.received|
        && s'.rbuf.value.data == s'.log.received[|s'.log.consumed|..])
    && (s.rbuf.Some? ==> s.rbuf.value.size <= Max(READ_BUF_SIZE, 8 * s.log.readPeak))
  }

  /** send is offered exactly the bytes accepted and not yet sent. */
  ghost predicate SendsWell(s: Sock) {
    && |s.log.sent| <= |s.log.accepted|
    && Held(s.wbuf) == s.log.accepted[|s.log.sent|..]
    && (s.wbuf.Some? ==> s.wbuf.value.size <= Max(WRITE_BUF_SIZE, 2 * s.log.writePeak))
  }

  lemma SocketServed(st: State, f: nat, d: Dispatch)
    requires Inv(st) && Room(st, {}) && f in st.tab
    ensures ReadsWell(st.tab[f], d) && SendsWell(st.tab[f])
  {
    hide Shape, Watermarks, Counters, FdInv;
    var s := st.tab[f];
    assert SockInv(s);
    assert s.log.accepted == s.log.sent + Held(s.wbuf);
    if !s.kind.Server? {
      var s' := AfterRecv(s, d);
      assert s'.log.received == s'.log.consumed + s'.rbuf.value.data;
    }
  }

  /** Every visit of every poll of every run. However far the poll has come and
      whatever the callbacks did, it goes on with the next socket of the list as
      it stood; that socket is still registered, its recv has room, its read
      callback sees what is unconsumed, and what is then sent is next in line. */
  lemma ReachableVisit(st: State, sel: Select, world: World, k: nat, m: State)
    requires Reachable(st) && sel.Ready? && Answers(st.(inLoop := true), sel) && k < |st.order|
    requires Sweep(st.(inLoop := true), st.order[..k], sel.r, sel.w, world) == Ok(m)
    ensures Poll(st.(inLoop := true), sel, world) == Sweep(m, st.order[k..], sel.r, sel.w, world)
    ensures var f := st.order[k]; var d := world(f);
      && f in m.tab && ReadsWell(m.tab[f], d)
      && (f !in sel.r ==> SendsWell(m.tab[f]))
      && var h := HandleRecv(m, f, d);
         f in sel.r && h.Ok? ==> f in h.st.tab && SendsWell(h.st.tab[f])
  {
    hide Inv, Room, Visit, HandleRecv, ReadsWell, SendsWell, Answers, Orderly;
    var st0 := st.(inLoop := true);
    var f := st.order[k];
    ReachableInv(st);
    InLoopInv(st, true);
    ShapeOf(st0);
    PollSkipsNobody(st0, sel, world);
    assert st.order == st.order[..k] + st.order[k..];
    SweepSplits(st0, st.order[..k], st.order[k..], sel.r, sel.w, world);
    SweepInv(st0, st.order[..k], sel.r, sel.w, world);
    SweepKeepsMembers(st0, st.order[..k], sel.r, sel.w, world, f);
    SocketServed(m, f, world(f));
    if f in sel.r && HandleRecv(m, f, world(f)).Ok? {
      HandleRecvInv(m, f, world(f));
      RecvKeepsMember(m, f, world(f), f);
      SocketServed(HandleRecv(m, f, world(f)).st, f, world(f));
    }
  }

  lemma ShapeOf(st: State)
    requires Inv(st)
    ensures Shape(st)
  {
  }

  lemma RecvKeepsMember(st: State, f: nat, d: Dispatch, g: nat)
    requires Inv(st) && Room(st, {}) && st.inLoop && f in st.tab && g in st.tab && HandleRecv(st, f, d).Ok?
    ensures g in HandleRecv(st, f, d).st.tab
  {
    hide Inv, Room;
    if g != f {
      RecvTracks(st, f, d, g);
    } else if st.tab[f].kind.Server? {
      CallsTrack(st, d.acts, f);
    }
  }

  lemma {:induction false} SweepKeepsMembers(st: State, todo: seq<nat>, r: set<nat>, w: set<nat>, world: World,
                                             g: nat)
    requires Inv(st) && Room(st, {}) && st.inLoop && Sweep(st, todo, r, w, world).Ok? && g in st.tab
    ensures g in Sweep(st, todo, r, w, world).st.tab
    decreases |todo|
  {
    hide Inv, Room, HandleRecv, HandleSend;
    if todo == [] {
    } else {
      var f, d := todo[0], world(todo[0]);
      VisitInv(st, f, r, w, d);
      VisitKeepsMember(st, f, r, w, d, g);
      SweepKeepsMembers(Visit(st, f, r, w, d).st, todo[1..], r, w, world, g);
    }
  }

  lemma VisitKeepsMember(st: State, f: nat, r: set<nat>, w: set<nat>, d: Dispatch, g: nat)
    requires Inv(st) && Room(st, {}) && st.inLoop && g in st.tab && Visit(st, f, r, w, d).Ok?
    ensures g in Visit(st, f, r, w, d).st.tab
  {
    hide Inv, Room, HandleRecv;
    if f in r {
      RecvKeepsMember(st, f, d, g);
    }
    var st1 := if f in r then HandleRecv(st, f, d).st else st;
    if f in w {
      SendKeepsList(st1, f, d);
    }
  }

  // ------------------------------------------------------------------
  // Closed sockets stay closed
  // ------------------------------------------------------------------

  ghost predicate IsClosed(st: State, g: nat) {
    g in st.tab && Eof in st.tab[g].flags
  }

  /** No call opens a closed socket again, or takes it off the list, be it made
      in the loop or outside. */
  lemma ApplyKeepsClosed(st: State, a: Action, g: nat)
    requires Shape(st) && IsClosed(st, g) && Apply(st, a).Ok?
    ensures IsClosed(Apply(st, a).st, g)
  {
    hide FinalClose;
    match a
    case Connect(sys) =>
    case Listen(sys) =>
    case Accept(_, heapOk, sys) =>
    case ReadStart(f) =>
    case ReadStop(f) =>
    case Write(f, _, _, _) =>
    case Close(f) =>
      if !st.inLoop {
        CloseOutsideExactly(st, f);
      }
  }

  lemma {:induction false} CallsKeepClosed(st: State, acts: seq<Action>, g: nat)
    requires Inv(st) && IsClosed(st, g) && Calls(st, acts).Ok?
    ensures IsClosed(Calls(st, acts).st, g)
    decreases |acts|
  {
    hide Apply, IsClosed, SocketsInv, Watermarks, Counters, Shape;
    if acts == [] {
    } else {
      ApplyInv(st, acts[0]);
      ApplyKeepsClosed(st, acts[0], g);
      CallsKeepClosed(Apply(st, acts[0]).st, acts[1..], g);
    }
  }

  lemma RecvKeepsClosed(st: State, f: nat, d: Dispatch, g: nat)
    requires Inv(st) && Room(st, {}) && st.inLoop && f in st.tab && HandleRecv(st, f, d).Ok? && IsClosed(st, g)
    ensures IsClosed(HandleRecv(st, f, d).st, g)
  {
    hide Inv, Room;
    if st.tab[f].kind.Server? {
      CallsKeepClosed(st, d.acts, g);
    } else if st.tab[f].rbuf.Some? || d.rbufOk {
      var st1, st2 := RecvParts(st, f, d);
      CallsKeepClosed(st1, d.acts, g);
    }
  }

  lemma VisitKeepsClosed(st: State, f: nat, r: set<nat>, w: set<nat>, d: Dispatch, g: nat)
    requires Inv(st) && Room(st, {}) && st.inLoop && Visit(st, f, r, w, d).Ok? && IsClosed(st, g)
    ensures IsClosed(Visit(st, f, r, w, d).st, g)
  {
    hide Inv, Room, HandleRecv;
    if f in r {
      RecvKeepsClosed(st, f, d, g);
    }
    var st1 := if f in r then HandleRecv(st, f, d).st else st;
    if f in w {
      SendTracks(st1, f, d, g);
    }
  }

  lemma {:induction false} SweepKeepsClosed(st: State, todo: seq<nat>, r: set<nat>, w: set<nat>, world: World, g: nat)
    requires Inv(st) && Room(st, {}) && st.inLoop && Sweep(st, todo, r, w, world).Ok? && IsClosed(st, g)
    ensures IsClosed(Sweep(st, todo, r, w, world).st, g)
    decreases |todo|
  {
    hide Inv, Room, Visit, IsClosed;
    if todo == [] {
    } else {
      VisitInv(st, todo[0], r, w, world(todo[0]));
      VisitKeepsClosed(st, todo[0], r, w, world(todo[0]), g);
      SweepKeepsClosed(Visit(st, todo[0], r, w, world(todo[0])).st, todo[1..], r, w, world, g);
    }
  }

  lemma PollKeepsClosed(st: State, sel: Select, world: World, g: nat)
    requires Inv(st) && Room(st, {}) && st.inLoop && Poll(st, sel, world).Ok? && IsClosed(st, g)
    ensures IsClosed(Poll(st, sel, world).st, g)
  {
    hide SocketsInv, Watermarks, Counters, Room, Visit, IsClosed;
    if sel.Ready? {
      PollSkipsNobody(st, sel, world);
      SweepKeepsClosed(st, st.order, sel.r, sel.w, world, g);
    }
  }

  // ------------------------------------------------------------------
  // Closed sockets go with the next turn
  // ------------------------------------------------------------------

  /** The state in which the closing pass of a turn starts. */
  lemma Polled(st: State, sel: Select, world: World, clock: Clock) returns (p: State)
    requires Inv(st) && Room(st, {}) && !sel.Broken? && Loop(st, sel, world, clock).Ok?
    ensures Poll(st.(inLoop := true), sel, world) == Ok(p) && Midway(p, [], p.order)
    ensures ClosePass(p, p.order, clock).Ok?
    ensures Loop(st, sel, world, clock).st == ClosePass(p, p.order, clock).st.(inLoop := false)
    ensures forall g :: IsClosed(st, g) ==> IsClosed(p, g)
  {
    hide Inv, Room, Poll, ClosePass, IsClosed;
    var st0 := st.(inLoop := true);
    InLoopInv(st, true);
    p := Poll(st0, sel, world).st;
    PollInv(st0, sel, world);
    PollInLoop(st0, sel, world);
    ShapeOf(p);
    assert [] + p.order == p.order;
    forall g | IsClosed(st, g) ensures IsClosed(p, g) {
      SameClosed(st, true, g);
      PollKeepsClosed(st0, sel, world, g);
    }
  }

  lemma SameClosed(st: State, b: bool, g: nat)
    ensures IsClosed(st.(inLoop := b), g) <==> IsClosed(st, g)
  {
  }

  /** Whatever is closed when a turn begins is gone when it ends, whatever its
      poll and the callbacks do; and of a server that the turn finalises, every
      socket left on the port is closed, so that it goes with the next turn. */
  lemma TurnClears(st: State, sel: Select, world: World, clock: Clock)
    requires Inv(st) && Room(st, {}) && !sel.Broken? && Loop(st, sel, world, clock).Ok?
    ensures var st' := Loop(st, sel, world, clock).st;
      && (forall g :: IsClosed(st, g) ==> g !in st'.tab)
      && var p := Poll(st.(inLoop := true), sel, world).st;
         forall g :: g in st'.tab && ServerGoes(p, p.order, st'.tab[g].port) ==> IsClosed(st', g)
  {
    hide Inv, Room, Poll, ClosePass, Loop, IsClosed, ServerGoes;
    var p := Polled(st, sel, world, clock);
    PassClears(p, clock);
    var c := ClosePass(p, p.order, clock).st;
    forall g ensures IsClosed(c.(inLoop := false), g) <==> IsClosed(c, g) {
      SameClosed(c, false, g);
    }
  }

  lemma PassClears(p: State, clock: Clock)
    requires Midway(p, [], p.order) && ClosePass(p, p.order, clock).Ok?
    ensures var c := ClosePass(p, p.order, clock).st;
      && (forall g :: IsClosed(p, g) ==> g !in c.tab)
      && (forall g :: g in c.tab && ServerGoes(p, p.order, c.tab[g].port) ==> IsClosed(c, g))
  {
    hide ClosePass, Behind, ServerGoes;
    PassResult(p, [], p.order, clock);
    FilterMembers(p.order, Remains(p, p.order, clock));
    var c := ClosePass(p, p.order, clock).st;
    assert forall g :: g in c.tab ==> g in c.order;
    assert forall g :: g in c.tab ==> Remains(p, p.order, clock)(g);
  }

  /** Two turns and any calls in between are enough: neither what was closed when
      the first turn ended is left, nor anything on the port of a server that the
      first turn finalised. */
  lemma TwoTurnsClear(st: State, sel1: Select, world1: World, clock1: Clock, acts: seq<Action>,
                      sel2: Select, world2: World, clock2: Clock)
    requires Reachable(st) && !sel1.Broken? && !sel2.Broken?
    requires Loop(st, sel1, world1, clock1).Ok? && Calls(Loop(st, sel1, world1, clock1).st, acts).Ok?
    requires Loop(Calls(Loop(st, sel1, world1, clock1).st, acts).st, sel2, world2, clock2).Ok?
    ensures var st1 := Loop(st, sel1, world1, clock1).st;
      var st2 := Calls(st1, acts).st;
      var st3 := Loop(st2, sel2, world2, clock2).st;
      var p := Poll(st.(inLoop := true), sel1, world1).st;
      && (forall g :: IsClosed(st1, g) ==> g !in st3.tab)
      && (forall g :: g in st1.tab && ServerGoes(p, p.order, st1.tab[g].port) ==> g !in st3.tab)
  {
    hide Inv, Room, Loop, Calls, Poll, Orderly, ServerGoes, IsClosed;
    ReachableInv(st);
    var st1 := Loop(st, sel1, world1, clock1).st;
    TurnClears(st, sel1, world1, clock1);
    LoopInv(st, sel1, world1, clock1);
    CallsInv(st1, acts);
    CallsRoom(st1, acts, {});
    forall g | IsClosed(st1, g) ensures IsClosed(Calls(st1, acts).st, g) {
      CallsKeepClosed(st1, acts, g);
    }
    TurnClears(Calls(st1, acts).st, sel2, world2, clock2);
  }

  /** Exactly when the closing pass of a turn fails its assertion, in any
      reachable state and after any poll. */
  lemma ReachablePassStopsExactly(st: State, sel: Select, world: World, clock: Clock)
    requires Reachable(st) && Poll(st.(inLoop := true), sel, world).Ok?
    ensures var p := Poll(st.(inLoop := true), sel, world).st;
      && !DoClose(p, clock).ApiStop?
      && (DoClose(p, clock).LoopStop? <==> exists i :: Fatal(p, [], p.order, clock, i))
  {
    hide Inv, Room, Poll, ClosePass, Orderly, Fatal;
    ReachableInv(st);
    InLoopInv(st, true);
    var p := Poll(st.(inLoop := true), sel, world).st;
    PollInv(st.(inLoop := true), sel, world);
    PollInLoop(st.(inLoop := true), sel, world);
    ShapeOf(p);
    assert [] + p.order == p.order;
    PassStopsExactly(p, [], p.order, clock);
    FatalInRange(p, clock);
  }

  lemma FatalInRange(p: State, clock: Clock)
    ensures Harmless(p, [], p.order, clock) <==> !exists i :: Fatal(p, [], p.order, clock, i)
  {
  }
}
