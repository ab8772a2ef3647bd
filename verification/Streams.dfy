/** What passes through one socket over a whole run, told from the events: from
    what the application writes, what recv and send answer, what the read callback
    takes, and the clock. Nothing here looks at the memory kept in `Log`. */
module Streams {
  import opened Basics
  import opened ByteQueue
  import opened Sockets
  import opened LoopInvariant
  import opened Callbacks
  import opened FlagAgreement
  import opened Polling
  import opened Closing
  import opened Runs
  import opened Turns

  /** The bytes a socket was given to send and those handed to send; the bytes
      that arrived and those its callback took; when its tick was last set; and the
      most bytes it ever held unread after a recv and unsent after a write. */
  datatype Flow = Flow(queued: seq<byte>, handed: seq<byte>, arrived: seq<byte>, eaten: seq<byte>,
                       stamp: Option<int>, unread: nat, unsent: nat)

  const NOTHING := Flow([], [], [], [], None, 0, 0)

  function Then(a: Flow, b: Flow): Flow {
    Flow(a.queued + b.queued, a.handed + b.handed, a.arrived + b.arrived, a.eaten + b.eaten,
         if b.stamp.Some? then b.stamp else a.stamp, Max(a.unread, b.unread), Max(a.unsent, b.unsent))
  }

  // ------------------------------------------------------------------
  // The flow of each step
  // ------------------------------------------------------------------

  /** A write is taken whole if memory for it can be had, otherwise as far as it
      fits beside what is unsent. */
  function Queued(s: Sock, bytes: seq<byte>, growOk: bool): Flow {
    var held, size := |Held(s.wbuf)|, if s.wbuf.Some? then s.wbuf.value.size else 8192;
    var n := if growOk then |bytes| else Min(|bytes|, Max(0, size - held));
    NOTHING.(queued := bytes[..n], unsent := held + n)
  }

  function CallFlow(st: State, a: Action, g: nat): Flow {
    match a
    case Connect(sys) => if sys.Some? && sys.value.fd == g then NOTHING.(stamp := Some(sys.value.now)) else NOTHING
    case Listen(sys) => if sys.Some? && sys.value.fd == g then NOTHING.(stamp := Some(0)) else NOTHING
    case Accept(_, heapOk, sys) =>
      if heapOk && sys.Some? && sys.value.fd == g then NOTHING.(stamp := Some(sys.value.now)) else NOTHING
    case Write(f, bytes, allocOk, growOk) =>
      if f == g && g in st.tab && (allocOk || WriteEnable in st.tab[g].flags) then Queued(st.tab[g], bytes, growOk)
      else NOTHING
    case _ => NOTHING
  }

  function CallsFlow(st: State, acts: seq<Action>, g: nat): Flow
    decreases |acts|
  {
    if acts == [] || !Apply(st, acts[0]).Ok? then NOTHING
    else Then(CallFlow(st, acts[0], g), CallsFlow(Apply(st, acts[0]).st, acts[1..], g))
  }

  /** What recv brings joins what is unread; of all that the callback takes what it
      says it took. */
  function Arrived(s: Sock, d: Dispatch): Flow {
    NOTHING.(arrived := Incoming(d.recv), stamp := Some(d.now), unread := |Held(s.rbuf)| + |Incoming(d.recv)|)
  }

  function Eaten(s: Sock, d: Dispatch): Flow {
    var unread := Held(s.rbuf) + Incoming(d.recv);
    NOTHING.(eaten := unread[..Min(Max(0, d.taken), |unread|)])
  }

  function RecvFlow(st: State, f: nat, d: Dispatch, g: nat): Flow
    requires f in st.tab
  {
    var s := st.tab[f];
    if s.kind.Server? then CallsFlow(st, d.acts, g)
    else if s.rbuf.None? && !d.rbufOk then NOTHING
    else
      var calls := CallsFlow(WithSock(st, f, AfterRecv(s, d)), d.acts, g);
      if g == f then Then(Arrived(s, d), Then(calls, Eaten(s, d))) else calls
  }

  /** As much as send says it took leaves the front of what is unsent. */
  function SendFlow(st: State, f: nat, d: Dispatch, g: nat): Flow
    requires f in st.tab
  {
    var unsent := Held(st.tab[f].wbuf);
    if f == g then NOTHING.(handed := unsent[..Min(Max(0, d.sent), |unsent|)]) else NOTHING
  }

  function VisitFlow(st: State, f: nat, r: set<nat>, w: set<nat>, d: Dispatch, g: nat): Flow {
    if f !in st.tab then NOTHING
    else
      var r1 := if f in r then HandleRecv(st, f, d) else Ok(st);
      var read := if f in r then RecvFlow(st, f, d, g) else NOTHING;
      if f in w && r1.Ok? && f in r1.st.tab then Then(read, SendFlow(r1.st, f, d, g)) else read
  }

  function SweepFlow(st: State, todo: seq<nat>, r: set<nat>, w: set<nat>, world: World, g: nat): Flow
    decreases |todo|
  {
    if todo == [] then NOTHING
    else
      var v := Visit(st, todo[0], r, w, world(todo[0]));
      var first := VisitFlow(st, todo[0], r, w, world(todo[0]), g);
      if v.Ok? then Then(first, SweepFlow(v.st, todo[1..], r, w, world, g)) else first
  }

  function PollFlow(st: State, sel: Select, world: World, g: nat): Flow {
    if sel.Ready? then SweepFlow(st, st.order, sel.r, sel.w, world, g) else NOTHING
  }

  function EventFlow(st: State, e: Event, g: nat): Flow {
    match e
    case Call(a) => CallFlow(st, a, g)
    case Turn(sel, world, _) => PollFlow(st.(inLoop := true), sel, world, g)
  }

  /** The flow of the socket that `g` names at the end of a run. When a socket goes,
      its descriptor starts again from nothing. */
  function LifeFlow(st: State, past: Flow, events: seq<Event>, g: nat): Flow
    decreases |events|
  {
    if events == [] || !Step(st, events[0]).Ok? then past
    else
      var st1 := Step(st, events[0]).st;
      LifeFlow(st1, if g in st1.tab then Then(past, EventFlow(st, events[0], g)) else NOTHING, events[1..], g)
  }

  // ------------------------------------------------------------------
  // Every step moves a socket by its flow
  // ------------------------------------------------------------------

  /** Socket `s` is what `before` (None: a socket just opened) becomes by `d`. */
  ghost predicate Carries(before: Option<Sock>, s: Sock, d: Flow) {
    var log := if before.Some? then before.value.log else NO_LOG;
    && s.log.accepted == log.accepted + d.queued && s.log.sent == log.sent + d.handed
    && s.log.received == log.received + d.arrived && s.log.consumed == log.consumed + d.eaten
    && s.log.readPeak == Max(log.readPeak, d.unread) && s.log.writePeak == Max(log.writePeak, d.unsent)
    && if d.stamp.Some? then s.tick == d.stamp.value else before.Some? && s.tick == before.value.tick
  }

  function At(st: State, g: nat): Option<Sock> {
    if g in st.tab then Some(st.tab[g]) else None
  }

  ghost predicate Moves(st: State, st': State, g: nat, d: Flow) {
    if g in st'.tab then Carries(At(st, g), st'.tab[g], d) else g !in st.tab && d == NOTHING
  }

  lemma CarriesTwice(before: Option<Sock>, s: Sock, t: Sock, a: Flow, b: Flow)
    requires Carries(before, s, a) && Carries(Some(s), t, b)
    ensures Carries(before, t, Then(a, b))
  {
  }

  lemma ThenNothing(d: Flow)
    ensures Then(NOTHING, d) == d == Then(d, NOTHING)
  {
    assert forall s: seq<byte> :: s + [] == s && [] + s == s;
  }

  lemma MovesTwice(st: State, st1: State, st2: State, g: nat, a: Flow, b: Flow)
    requires Moves(st, st1, g, a) && Moves(st1, st2, g, b)
    ensures Moves(st, st2, g, Then(a, b))
  {
    hide Carries;
    ThenNothing(b);
    if g in st2.tab && g in st1.tab {
      CarriesTwice(At(st, g), st1.tab[g], st2.tab[g], a, b);
    }
  }

  /** Neither bytes nor time. */
  lemma CarriesSame(s: Sock, t: Sock)
    requires t.log == s.log && t.tick == s.tick
    ensures Carries(Some(s), t, NOTHING)
  {
  }

  lemma MovesSame(st: State, st': State, g: nat)
    requires g in st.tab <==> g in st'.tab
    requires g in st.tab ==> st'.tab[g].log == st.tab[g].log && st'.tab[g].tick == st.tab[g].tick
    ensures Moves(st, st', g, NOTHING)
  {
    if g in st.tab {
      CarriesSame(st.tab[g], st'.tab[g]);
    }
  }

  lemma MovesNew(st: State, st': State, g: nat, tick: int)
    requires g !in st.tab && g in st'.tab
    requires st'.tab[g].log == NO_LOG && st'.tab[g].tick == tick
    ensures Moves(st, st', g, NOTHING.(stamp := Some(tick)))
  {
  }

  lemma PutCarries(s: Sock, bytes: seq<byte>, growOk: bool)
    requires s.wbuf.Some? && s.wbuf.value.Valid()
    ensures Carries(Some(s), PutWrite(s, bytes, growOk), Queued(s, bytes, growOk))
  {
    var q := s.wbuf.value;
    var n := q.Accepted(|bytes|, growOk);
    hide Queue.Accepted;
  }

  /** A socket that gets its write buffer has nothing unsent before and after. */
  lemma FirstWrite(s: Sock, t: Sock, bytes: seq<byte>, growOk: bool)
    requires s.wbuf.None? && t == s.(flags := t.flags, wbuf := Some(Empty(WRITE_BUF_SIZE)))
    ensures Queued(t, bytes, growOk) == Queued(s, bytes, growOk)
    ensures forall u, d :: Carries(Some(t), u, d) ==> Carries(Some(s), u, d)
  {
  }

  lemma WriteMoves(st: State, g: nat, bytes: seq<byte>, allocOk: bool, growOk: bool)
    requires Inv(st) && g in st.tab && Apply(st, Write(g, bytes, allocOk, growOk)).Ok?
    requires allocOk || WriteEnable in st.tab[g].flags
    ensures Moves(st, Apply(st, Write(g, bytes, allocOk, growOk)).st, g, Queued(st.tab[g], bytes, growOk))
  {
    WriteState(st, g);
    EmptyIsValid();
    hide Inv, Queue.Accepted, Queue.Write, Queue.Valid, PutWrite, Carries, Queued;
    var s := st.tab[g];
    if WriteEnable in s.flags {
      PutCarries(s, bytes, growOk);
    } else {
      var t := EnableWrite(st, g).tab[g];
      PutCarries(t, bytes, growOk);
      FirstWrite(s, t, bytes, growOk);
    }
  }

  lemma ApplyMoves(st: State, a: Action, g: nat)
    requires Inv(st) && (st.inLoop || !a.Close?) && Apply(st, a).Ok?
    ensures Moves(st, Apply(st, a).st, g, CallFlow(st, a, g))
  {
    hide Inv, FinalClose, SharesPort, Moves, Queue.Write, Queue.Accepted, Queue.Valid, Queued;
    var st' := Apply(st, a).st;
    match a
    case Connect(sys) =>
      if sys.Some? && sys.value.fd == g {
        MovesNew(st, st', g, sys.value.now);
      } else {
        MovesSame(st, st', g);
      }
    case Listen(sys) =>
      if sys.Some? && sys.value.fd == g {
        MovesNew(st, st', g, 0);
      } else {
        MovesSame(st, st', g);
      }
    case Accept(_, heapOk, sys) =>
      if heapOk && sys.value.fd == g {
        MovesNew(st, st', g, sys.value.now);
      } else {
        MovesSame(st, st', g);
      }
    case ReadStart(f) => MovesSame(st, st', g);
    case ReadStop(f) => MovesSame(st, st', g);
    case Write(f, bytes, allocOk, growOk) =>
      if f == g && (allocOk || WriteEnable in st.tab[g].flags) {
        WriteMoves(st, g, bytes, allocOk, growOk);
      } else {
        MovesSame(st, st', g);
      }
    case Close(f) => MovesSame(st, st', g);
  }

  lemma {:induction false} CallsMove(st: State, acts: seq<Action>, g: nat)
    requires Inv(st) && st.inLoop && Calls(st, acts).Ok?
    ensures Moves(st, Calls(st, acts).st, g, CallsFlow(st, acts, g))
    decreases |acts|
  {
    hide Inv, Apply, Moves, CallFlow;
    if acts == [] {
      MovesSame(st, st, g);
    } else {
      var st1 := Apply(st, acts[0]).st;
      ApplyInv(st, acts[0]);
      ApplyPrepends(st, acts[0]);
      ApplyMoves(st, acts[0], g);
      CallsMove(st1, acts[1..], g);
      MovesTwice(st, st1, Calls(st, acts).st, g, CallFlow(st, acts[0], g), CallsFlow(st1, acts[1..], g));
    }
  }

  lemma ArrivedMoves(st: State, f: nat, d: Dispatch)
    requires f in st.tab
    ensures Moves(st, WithSock(st, f, AfterRecv(st.tab[f], d)), f, Arrived(st.tab[f], d))
  {
  }

  lemma MaskMoves(st: State, f: nat, flag: Flag, g: nat)
    requires f in st.tab
    ensures Moves(st, MaskAndClose(st, f, flag), g, NOTHING)
  {
    hide Moves;
    MovesSame(st, MaskAndClose(st, f, flag), g);
  }

  /** The tail of a receive dispatch, for its own socket and for the others. */
  lemma TailMoves(st: State, f: nat, taken: nat, growOk: bool, g: nat)
    requires f in st.tab && st.tab[f].rbuf.Some?
    ensures var data := st.tab[f].rbuf.value.data;
      Moves(st, GrowOrClose(WithSock(st, f, AfterRead(st.tab[f], taken)), f, growOk), g,
            if g == f then NOTHING.(eaten := data[..Min(taken, |data|)]) else NOTHING)
  {
    hide AfterRead, GrowOrClose, Moves;
    var st1 := WithSock(st, f, AfterRead(st.tab[f], taken));
    var data := st.tab[f].rbuf.value.data;
    var d := if g == f then NOTHING.(eaten := data[..Min(taken, |data|)]) else NOTHING;
    if g == f {
      ReadMoves(st, f, taken);
    } else {
      MovesSame(st, st1, g);
    }
    KeepsBuffer(st.tab[f], taken);
    GrowMoves(st1, f, growOk, g);
    MovesTwice(st, st1, GrowOrClose(st1, f, growOk), g, d, NOTHING);
    ThenNothing(d);
  }

  lemma KeepsBuffer(s: Sock, taken: nat)
    requires s.rbuf.Some?
    ensures AfterRead(s, taken).rbuf.Some?
  {
  }

  lemma ReadMoves(st: State, f: nat, taken: nat)
    requires f in st.tab && st.tab[f].rbuf.Some?
    ensures var data := st.tab[f].rbuf.value.data;
      Moves(st, WithSock(st, f, AfterRead(st.tab[f], taken)), f, NOTHING.(eaten := data[..Min(taken, |data|)]))
  {
    hide Drain;
  }

  lemma GrowMoves(st: State, f: nat, growOk: bool, g: nat)
    requires f in st.tab && st.tab[f].rbuf.Some?
    ensures Moves(st, GrowOrClose(st, f, growOk), g, NOTHING)
  {
    hide Moves, MaskAndClose;
    if st.tab[f].rbuf.value.Spare() == 0 && !growOk {
      MaskMoves(st, f, RbufRunout, g);
    } else {
      MovesSame(st, GrowOrClose(st, f, growOk), g);
    }
  }

  lemma RecvMoves(st: State, f: nat, d: Dispatch, g: nat)
    requires Inv(st) && Room(st, {}) && st.inLoop && f in st.tab && HandleRecv(st, f, d).Ok?
    ensures Moves(st, HandleRecv(st, f, d).st, g, RecvFlow(st, f, d, g))
  {
    hide Inv, Room, Moves, CallsFlow, Calls, GrowOrClose, AfterRead;
    var s, st' := st.tab[f], HandleRecv(st, f, d).st;
    if s.kind.Server? {
      CallsMove(st, d.acts, g);
    } else if s.rbuf.None? && !d.rbufOk {
      MovesSame(st, st, g);
    } else {
      var st1, st2 := RecvParts(st, f, d);
      var calls := CallsFlow(st1, d.acts, g);
      CallsMove(st1, d.acts, g);
      TailMoves(st2, f, d.taken, d.growOk, g);
      if g == f {
        ArrivedMoves(st, f, d);
        MovesTwice(st1, st2, st', g, calls, Eaten(s, d));
        MovesTwice(st, st1, st', g, Arrived(s, d), Then(calls, Eaten(s, d)));
      } else {
        MovesSame(st, st1, g);
        MovesTwice(st1, st2, st', g, calls, NOTHING);
        MovesTwice(st, st1, st', g, NOTHING, Then(calls, NOTHING));
        ThenNothing(calls);
      }
    }
  }

  lemma SentMoves(st: State, f: nat, n: nat)
    requires f in st.tab && st.tab[f].wbuf.Some? && n <= |st.tab[f].wbuf.value.data|
    ensures Moves(st, WithSock(st, f, AfterSend(st.tab[f], n)), f,
                  NOTHING.(handed := st.tab[f].wbuf.value.data[..n]))
  {
    hide Drain;
  }

  lemma SendMoves(st: State, f: nat, d: Dispatch, g: nat)
    requires f in st.tab && HandleSend(st, f, d).Ok?
    ensures Moves(st, HandleSend(st, f, d).st, g, SendFlow(st, f, d, g))
  {
    hide Moves, MaskAndClose, AfterSend;
    var unsent := Held(st.tab[f].wbuf);
    if unsent == [] || d.sent == 0 {
      MovesSame(st, st, g);
    } else if d.sent < 0 {
      MaskMoves(st, f, WriteFailed, g);
    } else {
      var st1 := WithSock(st, f, AfterSend(st.tab[f], d.sent));
      if g == f {
        SentMoves(st, f, d.sent);
      } else {
        MovesSame(st, st1, g);
      }
      MaskMoves(st1, f, WbufRunout, g);
      MovesTwice(st, st1, MaskAndClose(st1, f, WbufRunout), g, SendFlow(st, f, d, g), NOTHING);
      ThenNothing(SendFlow(st, f, d, g));
    }
  }

  lemma VisitMoves(st: State, f: nat, r: set<nat>, w: set<nat>, d: Dispatch, g: nat)
    requires Inv(st) && Room(st, {}) && st.inLoop && f in st.tab && Visit(st, f, r, w, d).Ok?
    ensures Moves(st, Visit(st, f, r, w, d).st, g, VisitFlow(st, f, r, w, d, g))
  {
    hide Inv, Room, Moves, HandleRecv, HandleSend, RecvFlow, SendFlow;
    var st1 := if f in r then HandleRecv(st, f, d).st else st;
    if f in r {
      RecvMoves(st, f, d, g);
    } else {
      MovesSame(st, st, g);
    }
    if f in w {
      SendMoves(st1, f, d, g);
      MovesTwice(st, st1, Visit(st, f, r, w, d).st, g, if f in r then RecvFlow(st, f, d, g) else NOTHING,
                 SendFlow(st1, f, d, g));
    }
  }

  lemma {:induction false} SweepMoves(st: State, todo: seq<nat>, r: set<nat>, w: set<nat>, world: World, g: nat)
    requires Inv(st) && Room(st, {}) && st.inLoop && (forall f :: f in todo ==> f in st.tab)
    requires Sweep(st, todo, r, w, world).Ok?
    ensures Moves(st, Sweep(st, todo, r, w, world).st, g, SweepFlow(st, todo, r, w, world, g))
    decreases |todo|
  {
    hide Inv, Room, Moves, Visit, VisitFlow;
    if todo == [] {
      MovesSame(st, st, g);
    } else {
      var f, d, rest := todo[0], world(todo[0]), todo[1..];
      var st1 := Visit(st, f, r, w, d).st;
      VisitInv(st, f, r, w, d);
      VisitMoves(st, f, r, w, d, g);
      forall h | h in rest ensures h in st1.tab {
        VisitKeepsMember(st, f, r, w, d, h);
      }
      SweepMoves(st1, rest, r, w, world, g);
      MovesTwice(st, st1, Sweep(st1, rest, r, w, world).st, g, VisitFlow(st, f, r, w, d, g),
                 SweepFlow(st1, rest, r, w, world, g));
    }
  }

  lemma PollMoves(st: State, sel: Select, world: World, g: nat)
    requires Inv(st) && Room(st, {}) && st.inLoop && Poll(st, sel, world).Ok?
    ensures Moves(st, Poll(st, sel, world).st, g, PollFlow(st, sel, world, g))
  {
    ShapeOf(st);
    hide Inv, Room, Moves, Visit, SweepFlow;
    if sel.Ready? {
      PollSkipsNobody(st, sel, world);
      SweepMoves(st, st.order, sel.r, sel.w, world, g);
    } else {
      MovesSame(st, st, g);
    }
  }

  // ------------------------------------------------------------------
  // Runs
  // ------------------------------------------------------------------

  /** The flow tells everything about `g` in the state it has led to. */
  ghost predicate Tells(st: State, g: nat, d: Flow) {
    if g in st.tab then Carries(None, st.tab[g], d) else d == NOTHING
  }

  lemma TellsMore(st: State, st': State, g: nat, past: Flow, d: Flow)
    requires Tells(st, g, past) && Moves(st, st', g, d)
    ensures Tells(st', g, if g in st'.tab then Then(past, d) else NOTHING)
  {
    hide Carries;
    ThenNothing(d);
    if g in st.tab {
      CarriesTwice(None, st.tab[g], st'.tab[g], past, d);
    }
  }

  /** What stays on the list keeps its bytes and its time. */
  lemma TellsStill(st: State, st': State, g: nat, d: Flow)
    requires Tells(st, g, d)
    requires g in st'.tab ==> g in st.tab && st'.tab[g].log == st.tab[g].log && st'.tab[g].tick == st.tab[g].tick
    ensures Tells(st', g, if g in st'.tab then d else NOTHING)
  {
  }

  lemma CallTells(st: State, a: Action, g: nat, past: Flow)
    requires Inv(st) && Tells(st, g, past) && Apply(st, a).Ok?
    ensures var st' := Apply(st, a).st;
      Tells(st', g, if g in st'.tab then Then(past, CallFlow(st, a, g)) else NOTHING)
  {
    hide Tells, Moves;
    if a.Close? && !st.inLoop {
      ShapeOf(st);
      hide Inv, FinalClose;
      CloseOutsideExactly(st, a.fd);
      ThenNothing(past);
      TellsStill(st, Apply(st, a).st, g, past);
    } else {
      hide Apply, Inv;
      ApplyMoves(st, a, g);
      TellsMore(st, Apply(st, a).st, g, past, CallFlow(st, a, g));
    }
  }

  lemma PassStill(p: State, clock: Clock, g: nat)
    requires Midway(p, [], p.order) && ClosePass(p, p.order, clock).Ok?
    ensures var c := ClosePass(p, p.order, clock).st;
      g in c.tab ==> g in p.tab && c.tab[g].log == p.tab[g].log && c.tab[g].tick == p.tab[g].tick
  {
    hide ClosePass, Remains, ServerGoes;
    PassResult(p, [], p.order, clock);
  }

  lemma TurnTells(st: State, sel: Select, world: World, clock: Clock, g: nat, past: Flow)
    requires Inv(st) && Room(st, {}) && Tells(st, g, past) && Loop(st, sel, world, clock).Ok?
    ensures var st' := Loop(st, sel, world, clock).st;
      Tells(st', g, if g in st'.tab then Then(past, PollFlow(st.(inLoop := true), sel, world, g)) else NOTHING)
  {
    hide Inv, Room, Moves, Poll, ClosePass, PollFlow;
    var st0 := st.(inLoop := true);
    var d := PollFlow(st0, sel, world, g);
    InLoopInv(st, true);
    assert Tells(st0, g, past);
    if sel.Broken? {
      Broken(st0, sel, world, g);
      ThenNothing(past);
    } else {
      var p := Polled(st, sel, world, clock);
      PollMoves(st0, sel, world, g);
      TellsMore(st0, p, g, past, d);
      PassStill(p, clock, g);
      var c := ClosePass(p, p.order, clock).st;
      TellsStill(p, c, g, if g in p.tab then Then(past, d) else NOTHING);
      assert Tells(c.(inLoop := false), g, if g in c.tab then Then(past, d) else NOTHING);
    }
  }

  lemma Broken(st: State, sel: Select, world: World, g: nat)
    requires sel.Broken?
    ensures PollFlow(st, sel, world, g) == NOTHING
  {
  }

  lemma {:induction false} RunTells(st: State, events: seq<Event>, g: nat, past: Flow)
    requires Inv(st) && Room(st, {}) && Tells(st, g, past) && Run(st, events).Ok?
    ensures Tells(Run(st, events).st, g, LifeFlow(st, past, events, g))
    decreases |events|
  {
    hide Inv, Room, Tells, Apply, Loop, CallFlow, PollFlow, Then;
    if events == [] {
    } else {
      StepInv(st, events[0]);
      match events[0] {
        case Call(a) => CallTells(st, a, g, past);
        case Turn(sel, world, clock) => TurnTells(st, sel, world, clock, g, past);
      }
      var st1 := Step(st, events[0]).st;
      RunTells(st1, events[1..], g, if g in st1.tab then Then(past, EventFlow(st, events[0], g)) else NOTHING);
    }
  }

  /** Conservation over every run, from the events alone. What was queued for a
      socket is what was handed to send, in order, followed by its write buffer;
      what arrived is what its callbacks took, in order, followed by its read
      buffer; its tick is the time of its last recv or of its opening; and the
      buffers are no larger than what had to be held at once demands. */
  lemma RunConserves(from: State, events: seq<Event>, g: nat)
    requires Begins(from) && Run(from, events).Ok? && g in Run(from, events).st.tab
    ensures var s := Run(from, events).st.tab[g]; var d := LifeFlow(from, NOTHING, events, g);
      && d.queued == d.handed + Held(s.wbuf)
      && d.arrived == d.eaten + Held(s.rbuf)
      && d.stamp == Some(s.tick)
      && (s.rbuf.Some? ==> s.rbuf.value.size <= Max(8192, 8 * d.unread))
      && (s.wbuf.Some? ==> s.wbuf.value.size <= Max(8192, 2 * d.unsent))
  {
    hide Inv, Room, AllAgree, Orderly, Run, LifeFlow;
    var d := LifeFlow(from, NOTHING, events, g);
    StartTells(from, g);
    RunInv(from, events);
    RunTells(from, events, g, NOTHING);
    SocketAt(Run(from, events).st, g);
    Balance(Run(from, events).st.tab[g], d);
  }

  lemma StartTells(from: State, g: nat)
    requires Begins(from)
    ensures Inv(from) && Room(from, {}) && Tells(from, g, NOTHING)
  {
    hide Inv, Room, AllAgree, Orderly;
    BeginsInv(from);
  }

  lemma Balance(s: Sock, d: Flow)
    requires SockInv(s) && Carries(None, s, d)
    ensures d.queued == d.handed + Held(s.wbuf) && d.arrived == d.eaten + Held(s.rbuf) && d.stamp == Some(s.tick)
    ensures s.rbuf.Some? ==> s.rbuf.value.size <= Max(8192, 8 * d.unread)
    ensures s.wbuf.Some? ==> s.wbuf.value.size <= Max(8192, 2 * d.unsent)
  {
    assert forall b: seq<byte> :: [] + b == b;
  }

  // ------------------------------------------------------------------
  // Time-outs
  // ------------------------------------------------------------------

  /** An open socket with no closed server of its port in front of it leaves in a
      closing pass iff it is a connection that has been silent for more than 300
      seconds. Clients and servers never leave by time. */
  lemma LeavesByTimeExactly(p: State, clock: Clock, g: nat)
    requires Inv(p) && p.inLoop && IsOpen(p, g) && DoClose(p, clock).Ok?
    requires !Behind(p, p.order, g)
    ensures g !in DoClose(p, clock).st.tab <==> p.tab[g].kind.Connection? && clock(g) - p.tab[g].tick > 300
  {
    hide Inv, ClosePass, Behind, Remains, Midway, ServerGoes;
    SocketAt(p, g);
    PassLeaves(p, clock, g);
    RemainsByTime(p, clock, g);
  }

  lemma RemainsByTime(p: State, clock: Clock, g: nat)
    requires IsOpen(p, g) && SockInv(p.tab[g]) && !Behind(p, p.order, g)
    ensures !Remains(p, p.order, clock)(g) <==> p.tab[g].kind.Connection? && clock(g) - p.tab[g].tick > 300
  {
    hide Behind;
  }

  lemma PassLeaves(p: State, clock: Clock, g: nat)
    requires Inv(p) && p.inLoop && g in p.tab && DoClose(p, clock).Ok?
    ensures g in DoClose(p, clock).st.tab <==> Remains(p, p.order, clock)(g)
  {
    ShapeOf(p);
    hide Inv, DoClose, Remains, Filter;
    PassList(p, clock);
    FilterMembers(p.order, Remains(p, p.order, clock));
  }

  lemma PassList(p: State, clock: Clock)
    requires Shape(p) && p.inLoop && DoClose(p, clock).Ok?
    ensures var c := DoClose(p, clock).st; Shape(c) && c.order == Filter(p.order, Remains(p, p.order, clock))
  {
    hide ClosePass, Remains, ServerGoes, Filter, Shape;
    assert [] + p.order == p.order;
    PassResult(p, [], p.order, clock);
    var left := Filter(p.order, Remains(p, p.order, clock));
    assert ([] + left) + [] == left;
  }

  /** The same over every run, from the events alone: after any run and any further
      poll, the time that counts is that of the last recv or of the opening. */
  lemma RunStallsExactly(from: State, events: seq<Event>, sel: Select, world: World, clock: Clock, g: nat)
    requires Begins(from) && Run(from, events).Ok?
    requires var p := Poll(Run(from, events).st.(inLoop := true), sel, world);
      p.Ok? && IsOpen(p.st, g) && !Behind(p.st, p.st.order, g) && DoClose(p.st, clock).Ok?
    ensures var st0 := Run(from, events).st.(inLoop := true);
      var p := Poll(st0, sel, world).st;
      var d := Then(LifeFlow(from, NOTHING, events, g), PollFlow(st0, sel, world, g));
      && d.stamp.Some?
      && (g !in DoClose(p, clock).st.tab <==> p.tab[g].kind.Connection? && clock(g) - d.stamp.value > 300)
  {
    hide Inv, Room, Run, LifeFlow, Poll, PollFlow, DoClose, Behind, Moves;
    var st := Run(from, events).st;
    var st0 := st.(inLoop := true);
    var p := Poll(st0, sel, world).st;
    var past := LifeFlow(from, NOTHING, events, g);
    StartTells(from, g);
    RunInv(from, events);
    RunTells(from, events, g, NOTHING);
    InLoopInv(st, true);
    PollInv(st0, sel, world);
    PollInLoop(st0, sel, world);
    PollMoves(st0, sel, world, g);
    assert Tells(st0, g, past);
    TellsMore(st0, p, g, past, PollFlow(st0, sel, world, g));
    LeavesByTimeExactly(p, clock, g);
  }

  /** The walk leaves the read buffer and the tick of a socket alone until it
      comes to it. */
  lemma {:induction false} SweepElsewhere(st: State, todo: seq<nat>, r: set<nat>, w: set<nat>, world: World, g: nat)
    requires Inv(st) && Room(st, {}) && st.inLoop && g in st.tab && g !in todo
    requires (forall f :: f in todo ==> f in st.tab) && Sweep(st, todo, r, w, world).Ok?
    ensures var p := Sweep(st, todo, r, w, world).st;
      && Inv(p) && Room(p, {}) && p.inLoop && g in p.tab
      && p.tab[g].tick == st.tab[g].tick && p.tab[g].rbuf == st.tab[g].rbuf && p.tab[g].kind == st.tab[g].kind
      && forall h :: h in st.tab ==> h in p.tab
    decreases |todo|
  {
    hide Inv, Room, Visit;
    if todo == [] {
    } else {
      var f, d := todo[0], world(todo[0]);
      VisitInv(st, f, r, w, d);
      VisitTracks(st, f, r, w, d, g);
      forall h | h in st.tab ensures h in Visit(st, f, r, w, d).st.tab {
        VisitKeepsMember(st, f, r, w, d, h);
      }
      SweepElsewhere(Visit(st, f, r, w, d).st, todo[1..], r, w, world, g);
    }
  }

  lemma RecvStamps(st: State, f: nat, d: Dispatch)
    requires st.inLoop && f in st.tab && HandleRecv(st, f, d).Ok?
    requires !st.tab[f].kind.Server? && (st.tab[f].rbuf.Some? || d.rbufOk)
    ensures var v := HandleRecv(st, f, d).st; f in v.tab && v.tab[f].tick == d.now && v.tab[f].kind == st.tab[f].kind
  {
    hide Calls, Drain;
    CallsTrack(WithSock(st, f, AfterRecv(st.tab[f], d)), d.acts, f);
  }

  lemma VisitStamps(st: State, f: nat, r: set<nat>, w: set<nat>, d: Dispatch)
    requires Inv(st) && Room(st, {}) && st.inLoop && f in st.tab && f in r && Visit(st, f, r, w, d).Ok?
    requires !st.tab[f].kind.Server? && (st.tab[f].rbuf.Some? || d.rbufOk)
    ensures var v := Visit(st, f, r, w, d).st; f in v.tab && v.tab[f].tick == d.now && v.tab[f].kind == st.tab[f].kind
  {
    hide Inv, Room, HandleRecv, Drain;
    RecvStamps(st, f, d);
  }

  /** A connection that is read from in a poll carries the time of that recv when
      the closing pass begins, whatever all callbacks do. */
  lemma PollStamps(st: State, sel: Select, world: World, g: nat)
    requires Inv(st) && Room(st, {}) && st.inLoop && sel.Ready? && Poll(st, sel, world).Ok?
    requires g in st.tab && g in sel.r && !st.tab[g].kind.Server? && (st.tab[g].rbuf.Some? || world(g).rbufOk)
    ensures var p := Poll(st, sel, world).st;
      g in p.tab && p.tab[g].tick == world(g).now && p.tab[g].kind == st.tab[g].kind
  {
    ShapeOf(st);
    hide Inv, Room, Visit;
    PollSkipsNobody(st, sel, world);
    var past, rest := Around(st.order, g);
    SweepStamps(st, past, g, rest, sel.r, sel.w, world);
  }

  lemma Around(s: seq<nat>, g: nat) returns (past: seq<nat>, rest: seq<nat>)
    requires NoDup(s) && g in s
    ensures s == past + ([g] + rest) && g !in past && g !in rest
  {
    var k :| 0 <= k < |s| && s[k] == g;
    past, rest := s[..k], s[k + 1..];
  }

  lemma SweepStamps(st: State, past: seq<nat>, g: nat, rest: seq<nat>, r: set<nat>, w: set<nat>, world: World)
    requires Inv(st) && Room(st, {}) && st.inLoop && g !in past && g !in rest && g in r
    requires (forall f :: f in past || f in rest || f == g ==> f in st.tab)
    requires Sweep(st, past + ([g] + rest), r, w, world).Ok?
    requires !st.tab[g].kind.Server? && (st.tab[g].rbuf.Some? || world(g).rbufOk)
    ensures var p := Sweep(st, past + ([g] + rest), r, w, world).st;
      g in p.tab && p.tab[g].tick == world(g).now && p.tab[g].kind == st.tab[g].kind
  {
    hide Inv, Room, Visit;
    SweepOk(st, past, [g] + rest, r, w, world);
    SweepSplits(st, past, [g] + rest, r, w, world);
    SweepElsewhere(st, past, r, w, world, g);
    var m := Sweep(st, past, r, w, world).st;
    assert ([g] + rest)[1..] == rest;
    VisitInv(m, g, r, w, world(g));
    VisitStamps(m, g, r, w, world(g));
    var v := Visit(m, g, r, w, world(g)).st;
    forall h | h in rest ensures h in v.tab {
      VisitKeepsMember(m, g, r, w, world(g), h);
    }
    SweepElsewhere(v, rest, r, w, world, g);
  }

  lemma {:induction false} SweepOk(st: State, past: seq<nat>, rest: seq<nat>, r: set<nat>, w: set<nat>, world: World)
    requires Sweep(st, past + rest, r, w, world).Ok?
    ensures Sweep(st, past, r, w, world).Ok?
    decreases |past|
  {
    hide Visit;
    if past == [] {
    } else {
      assert (past + rest)[1..] == past[1..] + rest;
      SweepOk(Visit(st, past[0], r, w, world(past[0])).st, past[1..], rest, r, w, world);
    }
  }

  /** Over a turn: a connection that received at time t and is still open when the
      closing pass begins outlives a pass at t + 300 or before, unless it stands
      behind a closed server of its port; and one second later it goes. */
  lemma TurnKeepsTheHeard(st: State, sel: Select, world: World, clock: Clock, g: nat)
    requires Reachable(st) && sel.Ready? && Loop(st, sel, world, clock).Ok?
    requires g in st.tab && g in sel.r && st.tab[g].kind.Connection? && (st.tab[g].rbuf.Some? || world(g).rbufOk)
    requires var p := Poll(st.(inLoop := true), sel, world).st; IsOpen(p, g) && !Behind(p, p.order, g)
    ensures g in Loop(st, sel, world, clock).st.tab <==> clock(g) <= world(g).now + 300
  {
    hide Inv, Room, Orderly, Poll, ClosePass, Behind;
    ReachableInv(st);
    InLoopInv(st, true);
    var st0 := st.(inLoop := true);
    var p := Poll(st0, sel, world).st;
    PollStamps(st0, sel, world, g);
    PollInv(st0, sel, world);
    PollInLoop(st0, sel, world);
    LeavesByTimeExactly(p, clock, g);
  }
}
