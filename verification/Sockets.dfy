/** The state of the event loop in zsocket.c and the effect of every step on it.
    Each function follows one C function, branch by branch; the theorems about
    them are in the modules that import this one. */
module Sockets {
  import opened Basics
  import opened ByteQueue

  const READ_BUF_SIZE := 8192
  const WRITE_BUF_SIZE := 8192
  const STALL_INTERVAL := 300

  datatype Kind = Client | Server | Connection

  /** The bits of the status word. A word is a set of flags: `|=` is union,
      `&=` is intersection. */
  datatype Flag = Eof | Timeout | ReadEnable | WriteEnable
                | ReadFailed | WriteFailed | RbufRunout | WbufRunout

  /** What passed through a socket so far. Not part of the C struct; it only
      remembers, and nothing depends on it. */
  datatype Log = Log(received: seq<byte>, consumed: seq<byte>,
                     accepted: seq<byte>, sent: seq<byte>,
                     readPeak: nat, writePeak: nat)

  const NO_LOG := Log([], [], [], [], 0, 0)

  datatype Sock = Sock(kind: Kind, port: int, flags: set<Flag>, tick: int, stall: int,
                       readCb: bool, rbuf: Option<Queue>, wbuf: Option<Queue>, log: Log)

  /** One number for each kind of socket. */
  datatype Tally = Tally(client: int, server: int, connection: int) {
    function Get(k: Kind): int {
      match k case Client => client case Server => server case Connection => connection
    }

    function Add(k: Kind, n: int): Tally {
      match k
      case Client => this.(client := client + n)
      case Server => this.(server := server + n)
      case Connection => this.(connection := connection + n)
    }
  }

  datatype Status = Status(total: int, current: int, closed: int, live: Tally) {
    function OneMore(k: Kind): Status {
      this.(total := total + 1, current := current + 1, live := live.Add(k, 1))
    }

    function OneLess(k: Kind): Status {
      this.(closed := closed + 1, current := current - 1, live := live.Add(k, -1))
    }
  }

  /** The globals of zsocket.c. `order` is the list `socks`, front first, by
      descriptor; `tab` holds the struct behind each descriptor. Two fields are not
      in the C code and only remember: `redundant` counts closes of sockets that
      were closed already, `portClash` whether listen was ever called on a port
      that a registered socket used. */
  datatype State = State(order: seq<nat>, tab: map<nat, Sock>,
                         fdsRead: set<nat>, fdsWrite: set<nat>,
                         nfdsRead: int, nfdsWrite: int,
                         status: Status, redundant: Tally, portClash: bool, inLoop: bool)

  const INITIAL := State([], map[], {}, {}, 0, 0,
                         Status(0, 0, 0, Tally(0, 0, 0)), Tally(0, 0, 0), false, false)

  /** How a step ends. ApiStop: an assertion in (or a crash inside) an API
      function the application called, or a system call answered with something
      it cannot answer. LoopStop: an assertion in the loop's own code. */
  datatype Outcome = Ok(st: State) | ApiStop | LoopStop

  // ------------------------------------------------------------------
  // Updates shared by the API functions
  // ------------------------------------------------------------------

  function WithSock(st: State, f: nat, s: Sock): State {
    st.(tab := st.tab[f := s])
  }

  /** list_add at the head and the three counters. */
  function Register(st: State, f: nat, s: Sock): State {
    st.(order := [f] + st.order,
        tab := st.tab[f := s],
        status := st.status.OneMore(s.kind))
  }

  function EnableRead(st: State, f: nat, callback: bool): State
    requires f in st.tab
  {
    var s := st.tab[f];
    WithSock(st, f, s.(flags := s.flags + {ReadEnable}, readCb := callback))
      .(nfdsRead := if st.nfdsRead < f + 1 then f + 1 else st.nfdsRead,
        fdsRead := st.fdsRead + {f})
  }

  function DisableRead(st: State, f: nat): State
    requires f in st.tab
  {
    var s := st.tab[f];
    WithSock(st, f, s.(flags := s.flags - {ReadEnable}, readCb := false))
      .(nfdsRead := if st.nfdsRead == f + 1 then st.nfdsRead - 1 else st.nfdsRead,
        fdsRead := st.fdsRead - {f})
  }

  function EnableWrite(st: State, f: nat): State
    requires f in st.tab
  {
    var s := st.tab[f];
    WithSock(st, f, s.(flags := s.flags + {WriteEnable}, wbuf := Some(Empty(WRITE_BUF_SIZE))))
      .(nfdsWrite := if st.nfdsWrite < f + 1 then f + 1 else st.nfdsWrite,
        fdsWrite := st.fdsWrite + {f})
  }

  /** The first phase of zsocket_close: everything before the test of
      `in_looping`. The socket stays in the list. */
  function MarkClosed(st: State, f: nat): State
    requires f in st.tab
  {
    var s := st.tab[f];
    WithSock(st, f, s.(flags := s.flags + {Eof}))
      .(nfdsRead := if st.nfdsRead == f + 1 then st.nfdsRead - 1 else st.nfdsRead,
        fdsRead := st.fdsRead - {f},
        nfdsWrite := if st.nfdsWrite == f + 1 then st.nfdsWrite - 1 else st.nfdsWrite,
        fdsWrite := st.fdsWrite - {f},
        status := st.status.OneLess(s.kind))
  }

  /** `state &= flag; zsocket_close(s, NULL);` inside the loop. The mask wipes
      the word, Eof included, so the assertion in zsocket_close cannot object
      to a socket that was closed before. */
  function MaskAndClose(st: State, f: nat, flag: Flag): State
    requires f in st.tab
  {
    var s := st.tab[f];
    var masked := WithSock(st, f, s.(flags := s.flags * {flag}));
    MarkClosed(masked, f)
      .(redundant := if Eof in s.flags then st.redundant.Add(s.kind, 1) else st.redundant)
  }

  predicate SharesPort(st: State, port: int) {
    exists g | g in st.order :: g in st.tab && st.tab[g].port == port
  }

  function Unlink(st: State, f: nat): State {
    st.(order := Filter(st.order, g => g != f), tab := st.tab - {f})
  }

  // ------------------------------------------------------------------
  // Closing
  // ------------------------------------------------------------------

  /** The walk in __zsocket_close that closes every socket on the server's port,
      in the loop, where closing only marks. */
  function Cascade(st: State, todo: seq<nat>, port: int): Outcome
    decreases |todo|
  {
    if todo == [] then Ok(st)
    else if todo[0] !in st.tab || st.tab[todo[0]].port != port then Cascade(st, todo[1..], port)
    else if Eof in st.tab[todo[0]].flags then LoopStop
    else Cascade(MarkClosed(st, todo[0]), todo[1..], port)
  }

  /** __zsocket_close. Outside the loop the walk over the server's port removes
      the node it stands on and then follows its poisoned link. */
  function FinalClose(st: State, f: nat): Outcome
    requires f in st.tab
  {
    var s := st.tab[f];
    var st' := Unlink(st, f);
    if Eof !in s.flags then LoopStop
    else if !s.kind.Server? then Ok(st')
    else if st.inLoop then Cascade(st', st'.order, s.port)
    else if SharesPort(st', s.port) then ApiStop
    else Ok(st')
  }

  // ------------------------------------------------------------------
  // The API
  // ------------------------------------------------------------------

  /** What a successful socket/bind, connect or accept call yields. */
  datatype Endpoint = Endpoint(fd: nat, port: int, now: int)

  /** One call by the application. Sockets are named by their descriptor; the
      remaining arguments are the answers of the system (None: it failed). */
  datatype Action =
    | Connect(sys: Option<Endpoint>)
    | Listen(sys: Option<Endpoint>)
    | Accept(server: nat, heapOk: bool, sys: Option<Endpoint>)
    | ReadStart(fd: nat)
    | ReadStop(fd: nat)
    | Write(fd: nat, bytes: seq<byte>, allocOk: bool, growOk: bool)
    | Close(fd: nat)

  function NewSock(kind: Kind, port: int, tick: int): Sock {
    Sock(kind, port, {}, tick, STALL_INTERVAL, false, None, None, NO_LOG)
  }

  /** A server reads from the start, with its connection callback. */
  function StartListening(st: State, f: nat, port: int): State {
    EnableRead(Register(st, f, NewSock(Server, port, 0)), f, false)
      .(portClash := st.portClash || SharesPort(st, port))
  }

  predicate IsOpen(st: State, f: nat) {
    f in st.tab && Eof !in st.tab[f].flags
  }

  function PutWrite(s: Sock, bytes: seq<byte>, growOk: bool): Sock
    requires s.wbuf.Some? && s.wbuf.value.Valid()
  {
    var q := s.wbuf.value.Write(bytes, growOk);
    s.(wbuf := Some(q),
       log := s.log.(accepted := s.log.accepted + bytes[..s.wbuf.value.Accepted(|bytes|, growOk)],
                     writePeak := Max(s.log.writePeak, |q.data|)))
  }

  function Apply(st: State, a: Action): Outcome {
    match a
    case Connect(sys) =>
      if sys.None? then Ok(st)
      else if sys.value.fd in st.tab then ApiStop
      else Ok(Register(st, sys.value.fd, NewSock(Client, sys.value.port, sys.value.now)))
    case Listen(sys) =>
      if sys.None? then Ok(st)
      else if sys.value.fd in st.tab then ApiStop
      else Ok(StartListening(st, sys.value.fd, sys.value.port))
    case Accept(server, heapOk, sys) =>
      if !IsOpen(st, server) then ApiStop
      else if !heapOk then Ok(st)
      else if sys.None? then ApiStop
      else if !st.tab[server].kind.Server? || sys.value.fd in st.tab then ApiStop
      else Ok(Register(st, sys.value.fd, NewSock(Connection, sys.value.port, sys.value.now)))
    case ReadStart(f) =>
      if !IsOpen(st, f) || ReadEnable in st.tab[f].flags then ApiStop
      else Ok(EnableRead(st, f, true))
    case ReadStop(f) =>
      if !IsOpen(st, f) || ReadEnable !in st.tab[f].flags then ApiStop
      else Ok(DisableRead(st, f))
    case Write(f, bytes, allocOk, growOk) =>
      if !IsOpen(st, f) then ApiStop
      else if WriteEnable !in st.tab[f].flags && st.tab[f].wbuf.Some? then ApiStop
      else if WriteEnable !in st.tab[f].flags && !allocOk then Ok(st)
      else
        var st1 := if WriteEnable !in st.tab[f].flags then EnableWrite(st, f) else st;
        if st1.tab[f].wbuf.None? || !st1.tab[f].wbuf.value.Valid() then ApiStop
        else Ok(WithSock(st1, f, PutWrite(st1.tab[f], bytes, growOk)))
    case Close(f) =>
      if !IsOpen(st, f) then ApiStop
      else if st.inLoop then Ok(MarkClosed(st, f))
      else FinalClose(MarkClosed(st, f), f)
  }

  /** A callback, or the application between two loops: any calls, in order. */
  function Calls(st: State, acts: seq<Action>): Outcome
    decreases |acts|
  {
    if acts == [] then Ok(st)
    else
      var r := Apply(st, acts[0]);
      if r.Ok? then Calls(r.st, acts[1..]) else r
  }

  // ------------------------------------------------------------------
  // Handlers
  // ------------------------------------------------------------------

  datatype Recv = Failed | Got(bytes: seq<byte>)

  /** Everything decided outside the library while one ready socket is served:
      allocator, recv and clock, the calls its callback makes and the number of
      bytes it reports as taken, and the answer of send (-1: failed). */
  datatype Dispatch = Dispatch(rbufOk: bool, recv: Recv, now: int,
                               acts: seq<Action>, taken: int, growOk: bool, sent: int)

  /** Consume, then collect only when little room is left. */
  function Drain(q: Queue, n: nat): Queue {
    if n == 0 then q else q.Drop(n).Collect(POLICY_LESS_SPARE)
  }

  function Incoming(r: Recv): seq<byte> {
    if r.Failed? then [] else r.bytes
  }

  /** The socket as the read callback finds it. */
  function AfterRecv(s: Sock, d: Dispatch): Sock {
    var q0 := if s.rbuf.Some? then s.rbuf.value else Empty(READ_BUF_SIZE);
    var q := q0.Fill(Incoming(d.recv));
    s.(rbuf := Some(q),
       flags := if d.recv.Failed? then s.flags * {ReadFailed} else s.flags,
       tick := d.now,
       log := s.log.(received := s.log.received + Incoming(d.recv),
                     readPeak := Max(s.log.readPeak, |q.data|)))
  }

  /** The socket after the callback took `taken` bytes. */
  function AfterRead(s: Sock, taken: nat): Sock
    requires s.rbuf.Some?
  {
    var q := s.rbuf.value;
    var n := if taken > |q.data| then |q.data| else taken;
    s.(rbuf := Some(Drain(q, n)), log := s.log.(consumed := s.log.consumed + q.data[..n]))
  }

  /** A full buffer is doubled, or the socket is given up. */
  function GrowOrClose(st: State, f: nat, growOk: bool): State
    requires f in st.tab && st.tab[f].rbuf.Some?
  {
    var s := st.tab[f];
    if s.rbuf.value.Spare() != 0 then st
    else if growOk then WithSock(st, f, s.(rbuf := Some(s.rbuf.value.(size := 2 * s.rbuf.value.size))))
    else MaskAndClose(st, f, RbufRunout)
  }

  function HandleRecv(st: State, f: nat, d: Dispatch): Outcome
    requires f in st.tab
  {
    var s := st.tab[f];
    if Eof in s.flags || ReadEnable !in s.flags then LoopStop
    else if s.kind.Server? then Calls(st, d.acts)
    else if s.rbuf.None? && !d.rbufOk then Ok(st)
    else
      var q0 := if s.rbuf.Some? then s.rbuf.value else Empty(READ_BUF_SIZE);
      if |Incoming(d.recv)| > q0.Spare() then ApiStop
      else if !s.readCb then LoopStop
      else
        var r := Calls(WithSock(st, f, AfterRecv(s, d)), d.acts);
        if !r.Ok? then r
        else if d.taken < 0 || f !in r.st.tab || r.st.tab[f].rbuf.None? then ApiStop
        else Ok(GrowOrClose(WithSock(r.st, f, AfterRead(r.st.tab[f], d.taken)), f, d.growOk))
  }

  function AfterSend(s: Sock, n: nat): Sock
    requires s.wbuf.Some? && n <= |s.wbuf.value.data|
  {
    var q := s.wbuf.value;
    s.(wbuf := Some(Drain(q, n)), log := s.log.(sent := s.log.sent + q.data[..n]))
  }

  function HandleSend(st: State, f: nat, d: Dispatch): Outcome
    requires f in st.tab
  {
    var s := st.tab[f];
    if Eof in s.flags || WriteEnable !in s.flags || s.wbuf.None? then LoopStop
    else if s.wbuf.value.data == [] then Ok(st)
    else if d.sent < 0 then Ok(MaskAndClose(st, f, WriteFailed))
    else if d.sent > |s.wbuf.value.data| then ApiStop
    else if d.sent == 0 then Ok(st)
    else
      var st' := WithSock(st, f, AfterSend(s, d.sent));
      if st'.tab[f].wbuf.value.Spare() == 0 then Ok(MaskAndClose(st', f, WbufRunout)) else Ok(st')
  }

  // ------------------------------------------------------------------
  // One turn of the loop
  // ------------------------------------------------------------------

  /** The application, the allocator and the network during one poll, by
      descriptor. A descriptor is served at most once per poll. */
  type World = nat -> Dispatch

  function Visit(st: State, f: nat, r: set<nat>, w: set<nat>, d: Dispatch): Outcome
  {
    var r1 := if f !in r then Ok(st) else if f !in st.tab then LoopStop else HandleRecv(st, f, d);
    if !r1.Ok? || f !in w then r1
    else if f !in r1.st.tab then LoopStop
    else HandleSend(r1.st, f, d)
  }

  /** The dispatch loop with its countdown: `left` is nfds_selected. */
  function Dispatching(st: State, todo: seq<nat>, r: set<nat>, w: set<nat>, world: World, left: int): Outcome
    decreases |todo|
  {
    if todo == [] then Ok(st)
    else
      var f := todo[0];
      var v := Visit(st, f, r, w, world(f));
      if !v.Ok? then v
      else if f !in r && f !in w then Dispatching(v.st, todo[1..], r, w, world, left)
      else if left - 1 == 0 then v
      else Dispatching(v.st, todo[1..], r, w, world, left - 1)
  }

  /** The answer of select; the two sets are the local copies it leaves. */
  datatype Select = Interrupted | Broken | Ready(r: set<nat>, w: set<nat>)

  function MaxFds(st: State): int {
    if st.nfdsRead > st.nfdsWrite then st.nfdsRead else st.nfdsWrite
  }

  /** select reports only descriptors it was asked about, below nfds. */
  predicate Answers(st: State, sel: Select) {
    sel.Ready? ==>
      && sel.r <= st.fdsRead && sel.w <= st.fdsWrite
      && (forall f :: f in sel.r + sel.w ==> f < MaxFds(st))
  }

  function Poll(st: State, sel: Select, world: World): Outcome {
    if !Answers(st, sel) then ApiStop
    else if !sel.Ready? || |sel.r| + |sel.w| == 0 then Ok(st)
    else Dispatching(st, st.order, sel.r, sel.w, world, |sel.r| + |sel.w|)
  }

  type Clock = nat -> int

  predicate Expired(s: Sock, now: int) {
    s.kind.Connection? && now - s.tick > s.stall
  }

  /** The body of the closing pass for one socket. */
  function CloseVisit(st: State, f: nat, now: int): Outcome
    requires f in st.tab
  {
    var st1 := if Expired(st.tab[f], now) then MaskAndClose(st, f, Timeout) else st;
    if Eof in st1.tab[f].flags then FinalClose(st1, f) else Ok(st1)
  }

  /** zsocket_do_close over the list as it stood when the pass began. */
  function ClosePass(st: State, todo: seq<nat>, clock: Clock): Outcome
    decreases |todo|
  {
    if todo == [] then Ok(st)
    else if todo[0] !in st.tab then LoopStop
    else
      var r := CloseVisit(st, todo[0], clock(todo[0]));
      if r.Ok? then ClosePass(r.st, todo[1..], clock) else r
  }

  function DoClose(st: State, clock: Clock): Outcome {
    ClosePass(st, st.order, clock)
  }

  /** zsocket_loop. When select breaks it returns early and leaves in_looping set. */
  function Loop(st: State, sel: Select, world: World, clock: Clock): Outcome {
    var st0 := st.(inLoop := true);
    if sel.Broken? then Ok(st0)
    else
      var p := Poll(st0, sel, world);
      if !p.Ok? then p
      else
        var c := DoClose(p.st, clock);
        if c.Ok? then Ok(c.st.(inLoop := false)) else c
  }

  // ------------------------------------------------------------------
  // Runs
  // ------------------------------------------------------------------

  datatype Event = Call(a: Action) | Turn(sel: Select, world: World, clock: Clock)

  function Step(st: State, e: Event): Outcome {
    match e
    case Call(a) => Apply(st, a)
    case Turn(sel, world, clock) => Loop(st, sel, world, clock)
  }

  function Run(st: State, events: seq<Event>): Outcome
    decreases |events|
  {
    if events == [] then Ok(st)
    else
      var r := Step(st, events[0]);
      if r.Ok? then Run(r.st, events[1..]) else r
  }
}
