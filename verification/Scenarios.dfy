/** Runs from the initial state in which zsocket.c misses its intent. The exact
    conditions are in FlagAgreement, Polling, Closing and Departures. */
module Scenarios {
  import opened Basics
  import opened ByteQueue
  import opened Sockets
  import opened LoopInvariant
  import opened Callbacks
  import opened Polling
  import opened Closing
  import opened Runs
  import opened Departures
  import Streams

  // ------------------------------------------------------------------
  // Reaching a state step by step
  // ------------------------------------------------------------------

  ghost predicate Leads(from: State, es: seq<Event>, st: State) {
    Run(from, es) == Ok(st) && Inv(st) && Room(st, {})
  }

  lemma RunNone(st: State)
    ensures Run(st, []) == Ok(st)
  {
  }

  lemma Start(from: State)
    requires Begins(from)
    ensures Leads(from, [], from) && !from.inLoop && from.order == [] && from.redundant == Tally(0, 0, 0)
    ensures from.tab == map[] && from.fdsRead == {} && from.fdsWrite == {}
  {
    hide Run, Inv, Room, AllAgree, Orderly, Begins;
    RunNone(from);
    OnlyInitial(from);
    BeginsInv(from);
  }

  lemma {:induction false} RunAppend(st: State, es: seq<Event>, e: Event)
    ensures Run(st, es + [e]) == var r := Run(st, es); if r.Ok? then Step(r.st, e) else r
    decreases |es|
  {
    hide Step;
    if es == [] {
      assert es + [e] == [e] && [e][1..] == [];
      assert Step(st, e).Ok? ==> Run(Step(st, e).st, []) == Step(st, e);
    } else {
      assert (es + [e])[1..] == es[1..] + [e];
      if Step(st, es[0]).Ok? {
        RunAppend(Step(st, es[0]).st, es[1..], e);
      }
    }
  }

  lemma Further(from: State, es: seq<Event>, st: State, e: Event) returns (st': State)
    requires Leads(from, es, st) && Step(st, e).Ok?
    ensures Leads(from, es + [e], st') && Step(st, e) == Ok(st')
  {
    hide Step, Inv, Room, Run;
    RunAppend(from, es, e);
    StepInv(st, e);
    st' := Step(st, e).st;
  }

  function Dial(f: nat, port: int): Event { Call(Connect(Some(Endpoint(f, port, 0)))) }

  function Serve(f: nat, port: int): Event { Call(Listen(Some(Endpoint(f, port, 0)))) }

  /** The descriptors of a list, read off its front. */
  lemma Members(st: State)
    requires Inv(st)
    ensures Shape(st) && forall f :: f in st.order <==> f in st.tab
  {
  }

  /** A registered socket nobody touched. */
  lemma Connects(from: State, es: seq<Event>, st: State, f: nat, port: int) returns (st': State)
    requires Leads(from, es, st) && !st.inLoop && f !in st.order
    ensures Leads(from, es + [Dial(f, port)], st') && !st'.inLoop && st'.order == [f] + st.order
    ensures st'.tab == st.tab[f := NewSock(Client, port, 0)] && st'.redundant == st.redundant
    ensures st'.fdsRead == st.fdsRead
  {
    hide Inv, Room, Leads;
    MembersAt(from, es, st);
    st' := Further(from, es, st, Dial(f, port));
  }

  lemma MembersAt(from: State, es: seq<Event>, st: State)
    requires Leads(from, es, st)
    ensures Inv(st) && Room(st, {}) && Shape(st) && forall f :: f in st.order <==> f in st.tab
  {
  }

  lemma Listens(from: State, es: seq<Event>, st: State, f: nat, port: int) returns (st': State)
    requires Leads(from, es, st) && !st.inLoop && f !in st.order
    ensures Leads(from, es + [Serve(f, port)], st') && !st'.inLoop && st'.order == [f] + st.order
    ensures st'.tab == st.tab[f := NewSock(Server, port, 0).(flags := {ReadEnable})] && st'.redundant == st.redundant
    ensures st'.fdsRead == st.fdsRead + {f}
  {
    hide Inv, Room, Leads, SharesPort;
    MembersAt(from, es, st);
    assert {} + {ReadEnable} == {ReadEnable};
    st' := Further(from, es, st, Serve(f, port));
  }

  lemma Reads(from: State, es: seq<Event>, st: State, f: nat) returns (st': State)
    requires Leads(from, es, st) && !st.inLoop && IsOpen(st, f) && ReadEnable !in st.tab[f].flags
    ensures Leads(from, es + [Call(ReadStart(f))], st') && !st'.inLoop && st'.order == st.order
    ensures st'.tab == st.tab[f := st.tab[f].(flags := st.tab[f].flags + {ReadEnable}, readCb := true)]
    ensures st'.redundant == st.redundant && st'.fdsRead == st.fdsRead + {f}
  {
    hide Inv, Room, Leads;
    st' := Further(from, es, st, Call(ReadStart(f)));
  }

  /** What select may report, and that a turn then is the sweep over the list and
      the pass. */
  lemma TurnIs(st: State, r: set<nat>, w: set<nat>, world: World, clock: Clock)
    requires Inv(st) && r <= st.fdsRead && w <= st.fdsWrite
    ensures var p := Sweep(st.(inLoop := true), st.order, r, w, world);
      Step(st, Turn(Ready(r, w), world, clock)) ==
        if !p.Ok? then p
        else if DoClose(p.st, clock).Ok? then Ok(DoClose(p.st, clock).st.(inLoop := false)) else DoClose(p.st, clock)
  {
    hide Visit, DoClose;
    PollSkipsNobody(st.(inLoop := true), Ready(r, w), world);
  }

  lemma {:induction false} SweepSolo(st: State, todo: seq<nat>, f: nat, w: set<nat>, world: World)
    requires NoDup(todo) && f in todo && w <= {f}
    ensures Sweep(st, todo, {f}, w, world) == Visit(st, f, {f}, w, world(f))
    decreases |todo|
  {
    hide HandleRecv, HandleSend;
    assert todo == [todo[0]] + todo[1..];
    if todo[0] != f {
      SweepSolo(st, todo[1..], f, w, world);
    } else {
      var v := Visit(st, f, {f}, w, world(f));
      if v.Ok? {
        SweepIdle(v.st, todo[1..], {f}, w, world);
      }
    }
  }

  /** A turn in which only one socket is ready. */
  lemma SoloTurn(st: State, f: nat, w: set<nat>, world: World, clock: Clock)
    requires Inv(st) && f in st.fdsRead && w <= {f} && w <= st.fdsWrite
    ensures var p := Visit(st.(inLoop := true), f, {f}, w, world(f));
      Step(st, Turn(Ready({f}, w), world, clock)) ==
        if !p.Ok? then p
        else if DoClose(p.st, clock).Ok? then Ok(DoClose(p.st, clock).st.(inLoop := false)) else DoClose(p.st, clock)
  {
    hide Visit, DoClose;
    TurnIs(st, {f}, w, world, clock);
    Members(st);
    assert f in st.order;
    SweepSolo(st.(inLoop := true), st.order, f, w, world);
  }

  lemma OneCall(st: State, a: Action)
    ensures Calls(st, [a]) == Apply(st, a)
  {
    hide Apply;
    var none := [a][1..];
    assert none == [];
    assert Apply(st, a).Ok? ==> Calls(Apply(st, a).st, none) == Ok(Apply(st, a).st);
  }

  /** A pass over open sockets that have not stalled changes nothing. */
  lemma {:induction false} IdlePass(st: State, todo: seq<nat>, clock: Clock)
    requires forall f :: f in todo ==> IsOpen(st, f) && !Expired(st.tab[f], clock(f))
    ensures ClosePass(st, todo, clock) == Ok(st)
    decreases |todo|
  {
    if todo == [] {
    } else {
      assert todo[0] in todo;
      assert CloseVisit(st, todo[0], clock(todo[0])) == Ok(st);
      IdlePass(st, todo[1..], clock);
    }
  }

  // ------------------------------------------------------------------
  // What the world does in these runs
  // ------------------------------------------------------------------

  function Zero(f: nat): int { 0 }

  function Late(f: nat): int { 1000 }

  function At300(f: nat): int { 300 }

  function At301(f: nat): int { 301 }

  function Quiet(): Dispatch {
    Dispatch(true, Got([]), 0, [], 0, true, 0)
  }

  function Doing(acts: seq<Action>): World {
    _ => Quiet().(acts := acts)
  }

  function FailingRecv(f: nat): Dispatch {
    Quiet().(recv := Failed)
  }

  // ------------------------------------------------------------------
  // A failed recv
  // ------------------------------------------------------------------

  /** A client that reads. */
  lemma Reader(from: State, f: nat, port: int) returns (es: seq<Event>, st: State)
    requires Begins(from)
    ensures es == [Dial(f, port), Call(ReadStart(f))] && Leads(from, es, st)
    ensures !st.inLoop && st.order == [f] && st.redundant == Tally(0, 0, 0) && st.fdsRead == {f}
    ensures st.tab == map[f := NewSock(Client, port, 0).(flags := {ReadEnable}, readCb := true)]
  {
    hide Leads, Begins;
    Start(from);
    var st1 := Connects(from, [], from, f, port);
    assert [] + [Dial(f, port)] == [Dial(f, port)];
    st := Reads(from, [Dial(f, port)], st1, f);
    es := [Dial(f, port)] + [Call(ReadStart(f))];
    assert {} + {ReadEnable} == {ReadEnable};
    assert st.tab == map[f := NewSock(Client, port, 0).(flags := {ReadEnable}, readCb := true)];
  }

  /** The recv of a reading client fails and its callback does nothing. */
  lemma FailingVisit(st: State, f: nat)
    requires Inv(st) && Room(st, {}) && st.inLoop && IsOpen(st, f)
    requires ReadEnable in st.tab[f].flags && !st.tab[f].kind.Server? && st.tab[f].rbuf.None?
    requires ReadFailed !in st.tab[f].flags
    ensures var v := HandleRecv(st, f, FailingRecv(f));
      && v.Ok? && v.st.order == st.order && v.st.fdsRead == st.fdsRead && v.st.tab.Keys == st.tab.Keys
      && IsOpen(v.st, f) && v.st.tab[f].flags == {} && v.st.tab[f].kind == st.tab[f].kind
  {
    var s := st.tab[f];
    assert SockInv(s) && FdInv(s, f in st.fdsRead, f in st.fdsWrite);
    assert s.flags * {ReadFailed} == {};
  }

  lemma Ends(from: State, es: seq<Event>, st: State, e: Event)
    requires Leads(from, es, st)
    ensures Run(from, es + [e]) == Step(st, e)
  {
    hide Step, Run, Inv, Room;
    RunAppend(from, es, e);
  }

  /** A client reads, its recv fails, its callback does nothing: the descriptor
      stays selected while READ_ENABLE is gone. */
  lemma FailedRecvLosesFlag(f: nat, port: int)
    ensures var r := Run(INITIAL, [Dial(f, port), Call(ReadStart(f)), Turn(Ready({f}, {}), FailingRecv, Zero)]);
      r.Ok? && IsOpen(r.st, f) && f in r.st.fdsRead && ReadEnable !in r.st.tab[f].flags
  {
    hide Run, Inv, Room, HandleRecv, ClosePass, Step, Begins;
    var turn := Turn(Ready({f}, {}), FailingRecv, Zero);
    OnlyInitial(INITIAL);
    var es, st := Reader(INITIAL, f, port);
    InLoopInv(st, true);
    FailingVisit(st.(inLoop := true), f);
    SoloTurn(st, f, {}, FailingRecv, Zero);
    var p := HandleRecv(st.(inLoop := true), f, FailingRecv(f)).st;
    IdlePass(p, p.order, Zero);
    Ends(INITIAL, es, st, turn);
    assert es + [turn] == [Dial(f, port), Call(ReadStart(f)), turn];
  }

  /** A client that reads and has bytes to send. */
  lemma Writer(from: State, f: nat, port: int, bytes: seq<byte>) returns (es: seq<Event>, st: State)
    requires Begins(from)
    ensures es == [Dial(f, port), Call(ReadStart(f)), Call(Write(f, bytes, true, true))] && Leads(from, es, st)
    ensures !st.inLoop && st.order == [f] && f in st.fdsRead && f in st.fdsWrite && IsOpen(st, f)
    ensures st.tab[f].kind.Client? && st.tab[f].flags == {ReadEnable, WriteEnable} && st.tab[f].rbuf.None?
  {
    hide Leads, Inv, Room, Begins;
    var es1, st1 := Reader(from, f, port);
    MembersAt(from, es1, st1);
    var a := Write(f, bytes, true, true);
    WriteAccepted(st1, f, bytes);
    st := Further(from, es1, st1, Call(a));
    es := es1 + [Call(a)];
  }

  lemma WriteAccepted(st: State, f: nat, bytes: seq<byte>)
    requires IsOpen(st, f) && WriteEnable !in st.tab[f].flags && st.tab[f].wbuf.None?
    ensures var r := Apply(st, Write(f, bytes, true, true));
      && r.Ok? && r.st.order == st.order && r.st.inLoop == st.inLoop
      && r.st.fdsRead == st.fdsRead && f in r.st.fdsWrite && IsOpen(r.st, f)
      && r.st.tab[f].flags == st.tab[f].flags + {WriteEnable}
      && r.st.tab[f].kind == st.tab[f].kind && r.st.tab[f].rbuf == st.tab[f].rbuf
  {
    assert Empty(WRITE_BUF_SIZE).Valid();
  }

  /** The peer resets a connection that has bytes to send: the socket is ready for
      both, the failed recv clears WRITE_ENABLE, and the send handler asserts it. */
  lemma ResetStops(f: nat, port: int, bytes: seq<byte>)
    ensures Run(INITIAL, [Dial(f, port), Call(ReadStart(f)), Call(Write(f, bytes, true, true)),
                          Turn(Ready({f}, {f}), FailingRecv, Zero)]) == LoopStop
  {
    hide Run, Inv, Room, HandleRecv, ClosePass, Step, Begins;
    var turn := Turn(Ready({f}, {f}), FailingRecv, Zero);
    OnlyInitial(INITIAL);
    var es, st := Writer(INITIAL, f, port, bytes);
    InLoopInv(st, true);
    FailingVisit(st.(inLoop := true), f);
    SoloTurn(st, f, {f}, FailingRecv, Zero);
    Ends(INITIAL, es, st, turn);
    assert es + [turn] == [Dial(f, port), Call(ReadStart(f)), Call(Write(f, bytes, true, true)), turn];
  }

  // ------------------------------------------------------------------
  // A callback that touches another ready socket
  // ------------------------------------------------------------------

  /** Two clients that read; the one connected last comes first. */
  lemma TwoReaders(from: State, f: nat, g: nat, port: int) returns (es: seq<Event>, st: State)
    requires Begins(from) && f != g
    ensures es == [Dial(g, port), Call(ReadStart(g)), Dial(f, port), Call(ReadStart(f))] && Leads(from, es, st)
    ensures !st.inLoop && st.order == [f, g] && st.fdsRead == {f, g} && IsOpen(st, f) && IsOpen(st, g)
    ensures ReadEnable in st.tab[f].flags && ReadEnable in st.tab[g].flags
    ensures st.tab[f].kind.Client? && st.tab[f].rbuf.None? && st.tab[g].kind.Client?
  {
    hide Leads, Begins;
    var es1, st1 := Reader(from, g, port);
    var st2 := Connects(from, es1, st1, f, port);
    st := Reads(from, es1 + [Dial(f, port)], st2, f);
    es := es1 + [Dial(f, port)] + [Call(ReadStart(f))];
  }

  /** The dispatch of `f`, whose callback makes one call that concerns `g`. */
  lemma Meddling(st: State, f: nat, g: nat, a: Action)
    requires Inv(st) && Room(st, {}) && st.inLoop && f != g && (a == Close(g) || a == ReadStop(g))
    requires IsOpen(st, f) && IsOpen(st, g) && ReadEnable in st.tab[f].flags && ReadEnable in st.tab[g].flags
    requires st.tab[f].kind.Client? && st.tab[f].rbuf.None?
    ensures var v := HandleRecv(st, f, Doing([a])(f));
      v.Ok? && g in v.st.tab && HandleRecv(v.st, g, Doing([a])(g)) == LoopStop
  {
    hide Inv, Room, FinalClose;
    var d := Doing([a])(f);
    ReaderHasCallback(st, f);
    OneCall(WithSock(st, f, AfterRecv(st.tab[f], d)), a);
  }

  /** A callback closes, or stops reading from, a socket that this poll has still
      to dispatch: its dispatch fails an assertion. */
  lemma MeddlingStops(f: nat, g: nat, port: int, a: Action)
    requires f != g && (a == Close(g) || a == ReadStop(g))
    ensures Run(INITIAL, [Dial(g, port), Call(ReadStart(g)), Dial(f, port), Call(ReadStart(f)),
                          Turn(Ready({f, g}, {}), Doing([a]), Zero)]) == LoopStop
  {
    hide Run, Inv, Room, HandleRecv, ClosePass, Step, Begins;
    var turn := Turn(Ready({f, g}, {}), Doing([a]), Zero);
    OnlyInitial(INITIAL);
    var es, st := TwoReaders(INITIAL, f, g, port);
    var st0 := st.(inLoop := true);
    InLoopInv(st, true);
    Meddling(st0, f, g, a);
    TurnIs(st, {f, g}, {}, Doing([a]), Zero);
    SecondStops(st0, f, g, Doing([a]));
    Ends(INITIAL, es, st, turn);
    assert es + [turn] == [Dial(g, port), Call(ReadStart(g)), Dial(f, port), Call(ReadStart(f)), turn];
  }

  lemma SecondStops(st: State, f: nat, g: nat, world: World)
    requires Inv(st) && Room(st, {}) && st.inLoop && f in st.tab && g in st.tab
    requires var v := HandleRecv(st, f, world(f));
      v.Ok? && (g in v.st.tab ==> HandleRecv(v.st, g, world(g)) == LoopStop)
    ensures Sweep(st, [f, g], {f, g}, {}, world) == LoopStop
  {
    hide HandleRecv;
    assert [f, g][1..] == [g];
  }

  // ------------------------------------------------------------------
  // A server closed outside the loop
  // ------------------------------------------------------------------

  /** A server is ready, and its callback accepts a connection. */
  function AcceptTurn(server: nat, f: nat, port: int): Event {
    Turn(Ready({server}, {}), Doing([Accept(server, true, Some(Endpoint(f, port, 0)))]), Zero)
  }

  /** A server and one accepted connection on its port. */
  lemma Accepted(from: State, server: nat, f: nat, port: int) returns (es: seq<Event>, st: State)
    requires Begins(from) && f != server
    ensures es == [Serve(server, port), AcceptTurn(server, f, port)]
    ensures Leads(from, es, st) && !st.inLoop && st.order == [f, server]
    ensures st.redundant == Tally(0, 0, 0) && server in st.fdsRead
    ensures st.tab ==
            map[server := NewSock(Server, port, 0).(flags := {ReadEnable}), f := NewSock(Connection, port, 0)]
  {
    hide Run, Inv, Room, ClosePass, Step, Leads, Begins;
    var a := Accept(server, true, Some(Endpoint(f, port, 0)));
    var turn := Turn(Ready({server}, {}), Doing([a]), Zero);
    Start(from);
    var st1 := Listens(from, [], from, server, port);
    MembersAt(from, [] + [Serve(server, port)], st1);
    OneCall(st1.(inLoop := true), a);
    SoloTurn(st1, server, {}, Doing([a]), Zero);
    var p := Register(st1.(inLoop := true), f, NewSock(Connection, port, 0));
    assert Visit(st1.(inLoop := true), server, {server}, {}, Doing([a])(server)) == Ok(p);
    IdlePass(p, p.order, Zero);
    st := Further(from, [] + [Serve(server, port)], st1, turn);
    es := [] + [Serve(server, port)] + [turn];
  }

  // ------------------------------------------------------------------
  // The time-out
  // ------------------------------------------------------------------

  /** A turn in which select is interrupted is a closing pass. */
  lemma QuietTurn(st: State, world: World, clock: Clock)
    ensures var c := DoClose(st.(inLoop := true), clock);
      Step(st, Turn(Interrupted, world, clock)) == if c.Ok? then Ok(c.st.(inLoop := false)) else c
  {
    hide DoClose;
  }

  /** A connection accepted at 0 that stays silent: it outlives a turn at 300 and
      goes in a turn at 301. A tick of 0 does not switch the time-out off. */
  lemma SilentRun(server: nat, f: nat, port: int)
    requires f != server
    ensures var r := Run(INITIAL, [Serve(server, port), AcceptTurn(server, f, port),
                                   Turn(Interrupted, Doing([]), At300)]);
      r.Ok? && IsOpen(r.st, f) && IsOpen(r.st, server)
    ensures var r := Run(INITIAL, [Serve(server, port), AcceptTurn(server, f, port),
                                   Turn(Interrupted, Doing([]), At301)]);
      r.Ok? && f !in r.st.tab && server in r.st.tab
  {
    hide Run, Inv, Room, ClosePass, Step, Leads, Begins;
    OnlyInitial(INITIAL);
    var es, st := Accepted(INITIAL, server, f, port);
    MembersAt(INITIAL, es, st);
    var p := st.(inLoop := true);
    InLoopInv(st, true);
    QuietTurn(st, Doing([]), At300);
    IdlePass(p, p.order, At300);
    Ends(INITIAL, es, st, Turn(Interrupted, Doing([]), At300));
    assert es + [Turn(Interrupted, Doing([]), At300)] ==
           [Serve(server, port), AcceptTurn(server, f, port), Turn(Interrupted, Doing([]), At300)];
    QuietTurn(st, Doing([]), At301);
    OpenPass(p, At301);
    Streams.LeavesByTimeExactly(p, At301, f);
    Streams.LeavesByTimeExactly(p, At301, server);
    Ends(INITIAL, es, st, Turn(Interrupted, Doing([]), At301));
    assert es + [Turn(Interrupted, Doing([]), At301)] ==
           [Serve(server, port), AcceptTurn(server, f, port), Turn(Interrupted, Doing([]), At301)];
  }

  /** Nothing is fatal to a pass over open sockets, and nobody goes with a server. */
  lemma OpenPass(p: State, clock: Clock)
    requires Inv(p) && p.inLoop && forall g :: g in p.order ==> IsOpen(p, g)
    ensures DoClose(p, clock).Ok? && forall g :: !Behind(p, p.order, g)
  {
    Members(p);
    hide Inv, ClosePass;
    assert [] + p.order == p.order;
    PassStopsExactly(p, [], p.order, clock);
  }

  /** The same connection, but it reads and receives at 299: it outlives a turn at
      301. */
  lemma HeardRun(server: nat, f: nat, port: int, bytes: seq<byte>)
    requires f != server && |bytes| <= 8192
    ensures var r := Run(INITIAL, [Serve(server, port), AcceptTurn(server, f, port), Call(ReadStart(f)),
                                   Turn(Ready({f}, {}), Receiving(bytes, 299), At301)]);
      r.Ok? && IsOpen(r.st, f) && IsOpen(r.st, server)
  {
    hide Run, Inv, Room, ClosePass, Step, Leads, Begins, HandleRecv;
    var turn := Turn(Ready({f}, {}), Receiving(bytes, 299), At301);
    OnlyInitial(INITIAL);
    var es0, st0 := Accepted(INITIAL, server, f, port);
    var st := Reads(INITIAL, es0, st0, f);
    var es := es0 + [Call(ReadStart(f))];
    assert {} + {ReadEnable} == {ReadEnable};
    MembersAt(INITIAL, es, st);
    InLoopInv(st, true);
    HeardVisit(st.(inLoop := true), f, bytes, 299);
    SoloTurn(st, f, {}, Receiving(bytes, 299), At301);
    var p := HandleRecv(st.(inLoop := true), f, Receiving(bytes, 299)(f)).st;
    assert IsOpen(p, server) && p.tab[server].kind.Server?;
    IdlePass(p, p.order, At301);
    Ends(INITIAL, es, st, turn);
    assert es + [turn] == [Serve(server, port), AcceptTurn(server, f, port), Call(ReadStart(f)), turn];
  }

  function Receiving(bytes: seq<byte>, now: int): World {
    _ => Quiet().(recv := Got(bytes), now := now)
  }

  lemma HeardVisit(st: State, f: nat, bytes: seq<byte>, now: int)
    requires Inv(st) && Room(st, {}) && st.inLoop && IsOpen(st, f) && |bytes| <= 8192
    requires ReadEnable in st.tab[f].flags && st.tab[f].kind.Connection? && st.tab[f].rbuf.None?
    ensures var v := HandleRecv(st, f, Receiving(bytes, now)(f));
      && v.Ok? && v.st.order == st.order && IsOpen(v.st, f)
      && v.st.tab == st.tab[f := v.st.tab[f]] && v.st.tab[f].tick == now && v.st.tab[f].stall == st.tab[f].stall
  {
    ReaderHasCallback(st, f);
    hide Inv, Room;
  }

  /** A server is closed outside the loop while a connection it accepted is
      registered: the walk over its port follows the link of a removed node. */
  lemma CloseOutsideStops(server: nat, f: nat, port: int)
    requires f != server
    ensures Run(INITIAL, [Serve(server, port), AcceptTurn(server, f, port), Call(Close(server))]) == ApiStop
  {
    hide Run, Inv, Room, Begins;
    OnlyInitial(INITIAL);
    var es, st := Accepted(INITIAL, server, f, port);
    MembersAt(INITIAL, es, st);
    CloseOutsideExactly(st, server);
    hide Leads, Begins;
    assert f in st.tab && st.tab[f].port == st.tab[server].port;
    assert Apply(st, Close(server)) == ApiStop;
    Ends(INITIAL, es, st, Call(Close(server)));
    assert es + [Call(Close(server))] ==
           [Serve(server, port), AcceptTurn(server, f, port), Call(Close(server))];
  }

  // ------------------------------------------------------------------
  // Servers on a port in use
  // ------------------------------------------------------------------

  /** A server's callback closes some open sockets, one or two. */
  lemma ServerCloses(st: State, server: nat, acts: seq<Action>, f: nat, g: nat) returns (p: State)
    requires Inv(st) && Room(st, {}) && st.inLoop && IsOpen(st, server) && st.tab[server].kind.Server?
    requires ReadEnable in st.tab[server].flags && IsOpen(st, f) && IsOpen(st, g)
    requires acts == (if f == g then [Close(f)] else [Close(f), Close(g)])
    ensures Visit(st, server, {server}, {}, Doing(acts)(server)) == Ok(p)
    ensures Inv(p) && Room(p, {}) && p.inLoop && p.order == st.order && p.redundant == st.redundant
    ensures p.tab == st.tab[f := Marked(st.tab[f])][g := Marked(st.tab[g])]
  {
    hide Inv, Room, FinalClose;
    CallsInv(st, acts);
    CallsRoom(st, acts, {});
    OneCall(st, Close(f));
    var st1 := MarkClosed(st, f);
    OneCall(st1, Close(g));
    assert acts[1..] == if f == g then [] else [Close(g)];
    p := if f == g then st1 else MarkClosed(st1, g);
    assert Calls(st, acts) == Ok(p);
  }

  lemma Clash(from: State, f: nat, g: nat, port: int) returns (es: seq<Event>, st: State)
    requires Begins(from) && f != g
    ensures es == [Dial(f, port), Serve(g, port)] && Leads(from, es, st)
    ensures Inv(st) && Room(st, {}) && !st.inLoop && st.order == [g, f] && g in st.fdsRead
    ensures IsOpen(st, g) && ServerOn(st, g, port) && ReadEnable in st.tab[g].flags
    ensures IsOpen(st, f) && st.tab[f].port == port
  {
    hide Run, Inv, Room, Step, Leads, Begins;
    Start(from);
    var st1 := Connects(from, [], from, f, port);
    st := Listens(from, [] + [Dial(f, port)], st1, g, port);
    es := [] + [Dial(f, port)] + [Serve(g, port)];
    MembersAt(from, es, st);
  }

  /** Listening on a port that a registered socket uses puts the server in
      front; closing both in one turn fails the assertion in zsocket_close. */
  lemma PortClashStops(f: nat, g: nat, port: int)
    requires f != g
    ensures Run(INITIAL, [Dial(f, port), Serve(g, port),
                          Turn(Ready({g}, {}), Doing([Close(f), Close(g)]), Zero)]) == LoopStop
  {
    hide Run, Inv, Room, Visit, ClosePass, Step, Leads, Harmless, Begins;
    var turn := Turn(Ready({g}, {}), Doing([Close(f), Close(g)]), Zero);
    OnlyInitial(INITIAL);
    var es, st := Clash(INITIAL, f, g, port);
    InLoopInv(st, true);
    var p := ServerCloses(st.(inLoop := true), g, [Close(f), Close(g)], f, g);
    SoloTurn(st, g, {}, Doing([Close(f), Close(g)]), Zero);
    Members(p);
    assert p.order == [g, f] && [] + p.order == p.order;
    ClosedBehind(p, g, f, port);
    PassStopsExactly(p, [], p.order, Zero);
    Ends(INITIAL, es, st, turn);
    assert es + [turn] == [Dial(f, port), Serve(g, port), turn];
  }

  lemma ClosedBehind(p: State, g: nat, f: nat, port: int)
    requires p.order == [g, f] && ClosedServer(p, g) && f in p.tab && Eof in p.tab[f].flags
    requires p.tab[g].port == port == p.tab[f].port
    ensures !Harmless(p, [], p.order, Zero)
  {
    assert p.order[1..] == [f] && f in [f];
    assert Fatal(p, [], p.order, Zero, 0);
  }

  lemma TwoServers(from: State, server: nat, other: nat, f: nat, port: int) returns (es: seq<Event>, st: State)
    requires Begins(from) && server != other && server != f && other != f
    ensures es == [Serve(other, port), Serve(server, port), Dial(f, port)] && Leads(from, es, st)
    ensures Inv(st) && Room(st, {}) && !st.inLoop && st.order == [f, server, other] && server in st.fdsRead
    ensures IsOpen(st, server) && ServerOn(st, server, port) && ReadEnable in st.tab[server].flags
    ensures IsOpen(st, other) && ServerOn(st, other, port)
    ensures IsOpen(st, f) && st.tab[f].kind.Client? && st.tab[f].port == port
  {
    hide Run, Inv, Room, Step, Leads, Begins;
    Start(from);
    var st1 := Listens(from, [], from, other, port);
    var st2 := Listens(from, [] + [Serve(other, port)], st1, server, port);
    st := Connects(from, [] + [Serve(other, port)] + [Serve(server, port)], st2, f, port);
    es := [] + [Serve(other, port)] + [Serve(server, port)] + [Dial(f, port)];
    MembersAt(from, es, st);
  }

  /** Two servers on one port and a client whose local port it is, too. One server
      is closed, nothing else: the cascade closes the other two, and the cascade
      of the second server then meets the closed client. */
  lemma TwoServersStop(server: nat, other: nat, f: nat, port: int)
    requires server != other && server != f && other != f
    ensures Run(INITIAL, [Serve(other, port), Serve(server, port), Dial(f, port),
                          Turn(Ready({server}, {}), Doing([Close(server)]), Zero)]) == LoopStop
  {
    hide Run, Inv, Room, Visit, ClosePass, Step, Leads, Harmless, Begins;
    var turn := Turn(Ready({server}, {}), Doing([Close(server)]), Zero);
    OnlyInitial(INITIAL);
    var es, st := TwoServers(INITIAL, server, other, f, port);
    InLoopInv(st, true);
    var p := ServerCloses(st.(inLoop := true), server, [Close(server)], server, server);
    SoloTurn(st, server, {}, Doing([Close(server)]), Zero);
    Members(p);
    assert p.order == [f, server, other] && [] + p.order == p.order;
    SecondServer(p, f, server, other, port);
    PassStopsExactly(p, [], p.order, Zero);
    Ends(INITIAL, es, st, turn);
    assert es + [turn] == [Serve(other, port), Serve(server, port), Dial(f, port), turn];
  }

  lemma SecondServer(p: State, f: nat, server: nat, other: nat, port: int)
    requires p.order == [f, server, other] && ClosedServer(p, server) && p.tab[server].port == port
    requires IsOpen(p, f) && p.tab[f].kind.Client? && p.tab[f].port == port && ServerOn(p, other, port)
    ensures !Harmless(p, [], p.order, Zero)
  {
    assert p.order[..1] == [f] && f in [f];
    assert StayingUser(p, p.order[..1], port, Zero);
    assert Second(p, [], p.order, Zero, 1, 2, port);
    assert Fatal(p, [], p.order, Zero, 1);
  }

  // ------------------------------------------------------------------
  // Counters that go wrong
  // ------------------------------------------------------------------

  /** The counters, once the sockets that are left are known. */
  lemma CountsAre(st: State, left: set<nat>)
    requires Counters(st) && (forall g :: g in st.tab <==> g in left)
    requires forall g :: g in left ==> IsOpen(st, g) && st.tab[g].kind.Server?
    ensures st.status.live.client == -st.redundant.client && st.status.live.connection == -st.redundant.connection
    ensures st.status.current == |left| - st.redundant.client - st.redundant.connection
  {
    assert Live(st.tab, Client) == {} && Live(st.tab, Connection) == {} && Live(st.tab, Server) == left;
    assert st.status.live.Get(Client) == -st.redundant.client && st.status.live.Get(Server) == |left|;
    assert st.status.live.Get(Connection) == -st.redundant.connection;
  }

  lemma CountersOf(st: State)
    requires Inv(st)
    ensures Counters(st)
  {
  }

  /** What the pass leaves, and its counters, when everything that stays is a
      server whose port nobody leaves. */
  lemma PassCounts(p: State, clock: Clock, left: set<nat>)
    requires Inv(p) && Room(p, {}) && p.inLoop && Harmless(p, [], p.order, clock)
    requires forall g :: g in p.order ==> (Remains(p, p.order, clock)(g) <==> g in left)
    requires forall g :: g in left ==> IsOpen(p, g) && p.tab[g].kind.Server? && !ServerGoes(p, p.order, p.tab[g].port)
    ensures DoClose(p, clock).Ok?
    ensures var c := DoClose(p, clock).st; var double := |Stale(p, p.order, clock)|;
      && (forall g :: g in c.tab <==> g in left) && (forall g :: g in left ==> IsOpen(c, g))
      && c.status.live.client == -p.redundant.client
      && c.status.live.connection == -p.redundant.connection - double
      && c.status.current == |left| - p.redundant.client - p.redundant.connection - double
  {
    hide Inv, Room, ClosePass, Remains, Harmless, Behind, Stale, ServerGoes;
    Members(p);
    assert [] + p.order == p.order;
    PassStopsExactly(p, [], p.order, clock);
    PassResult(p, [], p.order, clock);
    PassRedundant(p, [], p.order, clock);
    ClosePassInv(p, p.order, clock);
    FilterMembers(p.order, Remains(p, p.order, clock));
    var c := DoClose(p, clock).st;
    assert forall g :: g in c.tab <==> g in c.order;
    CountersOf(c);
    CountsAre(c, left);
  }

  /** A callback closes a connection that last received long ago: the same turn
      closes it again, and the counters say -1 connections and 0 open sockets,
      although the server is open. */
  lemma StalledCloseMiscounts(server: nat, f: nat, port: int)
    requires f != server
    ensures var r := Run(INITIAL, [Serve(server, port), AcceptTurn(server, f, port),
                                   Turn(Ready({server}, {}), Doing([Close(f)]), Late)]);
      r.Ok? && IsOpen(r.st, server) && r.st.status.live.connection == -1 && r.st.status.current == 0
  {
    hide Run, Inv, Room, Visit, ClosePass, Step, Leads, Remains, Stale, Harmless, Begins;
    var turn := Turn(Ready({server}, {}), Doing([Close(f)]), Late);
    OnlyInitial(INITIAL);
    var es, st := Accepted(INITIAL, server, f, port);
    MembersAt(INITIAL, es, st);
    InLoopInv(st, true);
    var p := ServerCloses(st.(inLoop := true), server, [Close(f)], f, f);
    SoloTurn(st, server, {}, Doing([Close(f)]), Late);
    StalledPass(p, server, f);
    PassCounts(p, Late, {server});
    Ends(INITIAL, es, st, turn);
    assert es + [turn] == [Serve(server, port), AcceptTurn(server, f, port), turn];
  }

  lemma StalledPass(p: State, server: nat, f: nat)
    requires p.order == [f, server] && f != server && IsOpen(p, server) && p.tab[server].kind.Server?
    requires f in p.tab && Eof in p.tab[f].flags && Expired(p.tab[f], 1000)
    ensures Harmless(p, [], p.order, Late) && Stale(p, p.order, Late) == {f}
    ensures Remains(p, p.order, Late)(server) && !Remains(p, p.order, Late)(f)
    ensures !ServerGoes(p, p.order, p.tab[server].port)
  {
  }

  /** A server is closed that stands in front of a stalled connection of its
      port: the cascade closes the connection, its time-out closes it again. All
      sockets are gone, and the counters say -1 connections and -1 sockets. */
  lemma CascadeMiscounts(other: nat, f: nat, server: nat, port: int)
    requires f != other && f != server && other != server
    ensures var r := Run(INITIAL, [Serve(other, port), AcceptTurn(other, f, port), Serve(server, port),
                                   Turn(Ready({server}, {}), Doing([Close(server)]), Late)]);
      r.Ok? && r.st.tab.Keys == {} && r.st.status.live.connection == -1 && r.st.status.current == -1
  {
    hide Run, Inv, Room, Visit, ClosePass, Step, Leads, Remains, Stale, Harmless, Begins;
    var turn := Turn(Ready({server}, {}), Doing([Close(server)]), Late);
    OnlyInitial(INITIAL);
    var es0, st0 := Accepted(INITIAL, other, f, port);
    var st := Listens(INITIAL, es0, st0, server, port);
    var es := es0 + [Serve(server, port)];
    MembersAt(INITIAL, es, st);
    InLoopInv(st, true);
    var p := ServerCloses(st.(inLoop := true), server, [Close(server)], server, server);
    SoloTurn(st, server, {}, Doing([Close(server)]), Late);
    CascadePass(p, server, f, other, port);
    PassCounts(p, Late, {});
    Ends(INITIAL, es, st, turn);
    assert es + [turn] == [Serve(other, port), AcceptTurn(other, f, port), Serve(server, port), turn];
  }

  lemma CascadePass(p: State, server: nat, f: nat, other: nat, port: int)
    requires p.order == [server, f, other] && f != other && f != server && other != server
    requires ClosedServer(p, server) && p.tab[server].port == port
    requires IsOpen(p, f) && Expired(p.tab[f], 1000) && p.tab[f].port == port
    requires IsOpen(p, other) && ServerOn(p, other, port)
    ensures Harmless(p, [], p.order, Late) && Stale(p, p.order, Late) == {f}
    ensures forall g :: g in p.order ==> !Remains(p, p.order, Late)(g)
  {
    hide Second;
    assert p.order[1..] == [f, other];
    BehindServer(p, server, f, other, port);
    forall i | 0 <= i < |p.order| ensures !Fatal(p, [], p.order, Late, i) {
      if i == 0 {
        forall j: nat ensures !Second(p, [], p.order, Late, 0, j, port) {
          NoSecond(p, server, f, other, port, j);
        }
      }
    }
  }

  lemma BehindServer(p: State, server: nat, f: nat, other: nat, port: int)
    requires p.order == [server, f, other] && f != server && other != server
    requires ClosedServer(p, server) && p.tab[server].port == port
    requires f in p.tab && p.tab[f].port == port && other in p.tab && p.tab[other].port == port
    ensures Behind(p, p.order, f) && Behind(p, p.order, other)
  {
    assert p.order[0] == server && p.order[1] == f && p.order[2] == other;
  }

  lemma NoSecond(p: State, server: nat, f: nat, other: nat, port: int, j: nat)
    requires p.order == [server, f, other] && f in p.tab && p.tab[f].kind.Connection?
    ensures !Second(p, [], p.order, Late, 0, j, port)
  {
    assert p.order[..0] == [] && p.order[3..] == [];
  }

  /** A client's first 8192 bytes arrive; its callback closes it and takes none,
      and there is no memory for a larger buffer: it is closed twice, and the
      counters say -1 clients and -1 sockets. */
  lemma FullCloseMiscounts(f: nat, port: int, bytes: seq<byte>)
    requires |bytes| == READ_BUF_SIZE
    ensures var d := Quiet().(recv := Got(bytes), acts := [Close(f)], growOk := false);
      var r := Run(INITIAL, [Dial(f, port), Call(ReadStart(f)), Turn(Ready({f}, {}), _ => d, Zero)]);
      r.Ok? && r.st.tab.Keys == {} && r.st.status.live.client == -1 && r.st.status.current == -1
  {
    hide Run, Inv, Room, Visit, ClosePass, Step, Leads, Remains, Stale, Harmless, Begins;
    var d := Quiet().(recv := Got(bytes), acts := [Close(f)], growOk := false);
    var world: World := _ => d;
    var turn := Turn(Ready({f}, {}), world, Zero);
    OnlyInitial(INITIAL);
    var es, st := Reader(INITIAL, f, port);
    MembersAt(INITIAL, es, st);
    InLoopInv(st, true);
    var p := FullVisit(st.(inLoop := true), f, d);
    SoloTurn(st, f, {}, world, Zero);
    ClosedPass(p, f);
    PassCounts(p, Zero, {});
    Ends(INITIAL, es, st, turn);
    assert es + [turn] == [Dial(f, port), Call(ReadStart(f)), turn];
  }

  lemma FullVisit(st: State, f: nat, d: Dispatch) returns (p: State)
    requires Inv(st) && Room(st, {}) && st.inLoop && st.order == [f] && st.redundant == Tally(0, 0, 0)
    requires IsOpen(st, f) && ReadEnable in st.tab[f].flags && st.tab[f].kind.Client? && st.tab[f].rbuf.None?
    requires d.rbufOk && d.recv.Got? && |d.recv.bytes| == READ_BUF_SIZE
    requires d.acts == [Close(f)] && d.taken == 0 && !d.growOk
    ensures Visit(st, f, {f}, {}, d) == Ok(p)
    ensures Inv(p) && Room(p, {}) && p.inLoop && p.order == [f] && p.redundant == Tally(1, 0, 0)
    ensures f in p.tab && Eof in p.tab[f].flags && p.tab[f].kind.Client?
  {
    hide Inv, Room, FinalClose;
    ReaderHasCallback(st, f);
    OneCall(WithSock(st, f, AfterRecv(st.tab[f], d)), Close(f));
    HandleRecvInv(st, f, d);
    p := HandleRecv(st, f, d).st;
  }

  lemma ClosedPass(p: State, f: nat)
    requires p.order == [f] && f in p.tab && Eof in p.tab[f].flags && p.tab[f].kind.Client?
    ensures Harmless(p, [], p.order, Zero) && Stale(p, p.order, Zero) == {}
    ensures !Remains(p, p.order, Zero)(f)
  {
  }
}
