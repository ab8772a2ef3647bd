/** zsocket.c as it runs: sockets and globals updated in place, cursors walking
    a list that changes under them. Every method is tied to the function of
    module Sockets that says what it does; `model` is the state seen that way. */
module EventLoop {
  import opened Basics
  import opened ByteQueue
  import opened Sockets
  import opened LoopInvariant
  import opened Callbacks
  import opened Polling
  import opened Closing
  import Streams

  class ZSocket {
    var fd: int
    var kind: Option<Kind>
    var port: int
    var flags: set<Flag>
    var tick: int
    var stall: int
    var readCb: bool
    var rbuf: Option<Queue>
    var wbuf: Option<Queue>
    ghost var log: Log

    /** zsocket_init. */
    constructor ()
      ensures Unused() && port == 0 && tick == 0
    {
      fd, kind, port, flags, tick, stall := -1, None, 0, {}, 0, STALL_INTERVAL;
      readCb, rbuf, wbuf, log := false, None, None, NO_LOG;
    }

    /** As zsocket_init leaves it. */
    ghost predicate Unused()
      reads this
    {
      && fd == -1 && kind.None? && flags == {} && stall == STALL_INTERVAL
      && !readCb && rbuf.None? && wbuf.None? && log == NO_LOG
    }

    /** The struct as a value. */
    ghost function View(): Sock
      requires kind.Some?
      reads this
    {
      Sock(kind.value, port, flags, tick, stall, readCb, rbuf, wbuf, log)
    }

    /** The struct becomes a new socket of that kind. */
    method Open(fd: nat, kind: Kind, port: int, tick: int)
      requires Unused()
      modifies this
      ensures Is(fd, NewSock(kind, port, tick))
      ensures this.fd == fd && this.kind == Some(kind) && this.port == port && this.tick == tick && stall == 300
    {
      this.fd, this.kind, this.port, this.tick := fd, Some(kind), port, tick;
    }

    /** recv into the buffer, or its failure. */
    method Take(d: Dispatch)
      requires kind.Some?
      modifies this`rbuf, this`flags, this`tick, this`log
      ensures View() == AfterRecv(old(View()), d)
      ensures tick == d.now && Held(rbuf) == old(Held(rbuf)) + if d.recv.Failed? then [] else d.recv.bytes
    {
      hide Queue.Valid, Queue.Spare;
      ghost var v := AfterRecv(View(), d);
      if rbuf.None? {
        rbuf := Some(Empty(READ_BUF_SIZE));
      }
      if d.recv.Failed? {
        flags := flags * {ReadFailed};
        FillNothing(rbuf.value);
      } else {
        rbuf := Some(rbuf.value.Fill(d.recv.bytes));
      }
      tick := d.now;
      log := v.log;
    }

    lemma FillNothing(q: Queue)
      ensures q.Fill([]) == q
    {
    }

    /** This struct is the socket `v` behind descriptor `f`. */
    ghost predicate Is(f: nat, v: Sock)
      reads this
    {
      fd == f && kind.Some? && View() == v
    }
  }

  class EventLoop {
    var socks: seq<ZSocket>
    var nfdsRead: int
    var fdsRead: set<nat>
    var nfdsWrite: int
    var fdsWrite: set<nat>
    var status: Status
    var inLooping: bool
    ghost var model: State

    /** The structs on the list. */
    ghost function Repr(): set<ZSocket>
      reads this
    {
      set t | t in socks
    }

    ghost predicate Valid()
      reads this, Repr()
    {
      Shape(model) && Linked(socks, model) && Globals(model) && inLooping == model.inLoop
    }

    /** The globals are those of the state. */
    ghost predicate Globals(m: State)
      reads this
    {
      && nfdsRead == m.nfdsRead && fdsRead == m.fdsRead
      && nfdsWrite == m.nfdsWrite && fdsWrite == m.fdsWrite
      && status == m.status
    }

    constructor ()
      ensures Valid() && socks == [] && model == INITIAL
    {
      socks, nfdsRead, fdsRead, nfdsWrite, fdsWrite := [], 0, {}, 0, {};
      status, inLooping, model := INITIAL.status, false, INITIAL;
    }

    /** A registered socket knows its descriptor and has one place in the list. */
    lemma Registered(s: ZSocket) returns (k: nat)
      requires Valid() && s in socks
      ensures k < |socks| == |model.order| && socks[k] == s
      ensures model.order[k] == s.fd && s.fd in model.tab && s.Is(s.fd, model.tab[s.fd])
    {
      k :| 0 <= k < |socks| && socks[k] == s;
    }

    /** The state takes over `next`, after the globals and the struct `s`. */
    ghost method Adopt(s: ZSocket, next: State, k: nat)
      requires Shape(model) && LinkedExcept(socks, model, s) && StandsAt(socks, s, k)
      requires k < |model.order| && model.order[k] in model.tab && OnlyAt(model, next, model.order[k])
      requires s.Is(model.order[k], next.tab[model.order[k]]) && Globals(next) && inLooping == next.inLoop
      modifies this`model
      ensures Valid() && model == next
    {
      hide Linked, LinkedExcept, StandsAt, Shape;
      Attach(socks, model, next, s, k);
      model := next;
    }

    /** The same when nothing but the struct changed: it is now the socket `v`. */
    ghost method Follow(s: ZSocket, v: Sock, k: nat)
      requires Shape(model) && LinkedExcept(socks, model, s) && StandsAt(socks, s, k)
      requires k < |model.order| && model.order[k] == s.fd && s.fd in model.tab && s.Is(s.fd, v)
      requires Globals(model) && inLooping == model.inLoop
      modifies this`model
      ensures Valid() && model == WithSock(old(model), s.fd, v)
    {
      hide Linked, LinkedExcept, StandsAt, Shape;
      Adopt(s, WithSock(model, s.fd, v), k);
    }

    lemma Standing(i: nat)
      requires Valid() && i < |socks| == |model.order|
      ensures socks[i].Is(model.order[i], model.tab[model.order[i]])
    {
    }

    // ------------------------------------------------------------------
    // Closing
    // ------------------------------------------------------------------

    /** The first phase of zsocket_close. */
    method Mark(s: ZSocket)
      requires Valid() && s in socks && s.fd in model.tab
      modifies this, s
      ensures Valid() && model == MarkClosed(old(model), old(s.fd))
      ensures socks == old(socks) && inLooping == old(inLooping)
      ensures s.fd == old(s.fd) && s.port == old(s.port) && s.kind == old(s.kind) && Eof in s.flags
    {
      hide Shape, Linked, LinkedExcept, StandsAt, Status.OneLess;
      ghost var k := Detach(socks, model, s);
      ghost var marked := MarkClosed(model, s.fd);
      Deselect(s.fd);
      s.flags := s.flags + {Eof};
      status := status.OneLess(s.kind.value);
      Adopt(s, marked, k);
    }

    /** The two watermarks and the two descriptor sets forget a descriptor. */
    method Deselect(f: nat)
      modifies this`nfdsRead, this`fdsRead, this`nfdsWrite, this`fdsWrite
      ensures nfdsRead == (if old(nfdsRead) == f + 1 then old(nfdsRead) - 1 else old(nfdsRead))
      ensures nfdsWrite == (if old(nfdsWrite) == f + 1 then old(nfdsWrite) - 1 else old(nfdsWrite))
      ensures fdsRead == old(fdsRead) - {f} && fdsWrite == old(fdsWrite) - {f}
    {
      if nfdsRead == f + 1 {
        nfdsRead := nfdsRead - 1;
      }
      fdsRead := fdsRead - {f};
      if nfdsWrite == f + 1 {
        nfdsWrite := nfdsWrite - 1;
      }
      fdsWrite := fdsWrite - {f};
    }

    /** zsocket_close. In the loop the socket is only marked. */
    method Close(s: ZSocket)
      requires Valid() && s in socks
      requires Eof !in s.flags
      requires s.fd in model.tab && (inLooping || FinalClose(MarkClosed(model, s.fd), s.fd).Ok?)
      modifies this, Repr()
      ensures Valid()
      ensures inLooping == old(inLooping)
      ensures inLooping ==> model == MarkClosed(old(model), old(s.fd)) && socks == old(socks) && s.fd == old(s.fd)
      ensures inLooping ==>
                forall t :: t in socks ==> t.fd == old(t.fd) && t.port == old(t.port) && t.kind == old(t.kind)
      ensures !inLooping ==> Ok(model) == FinalClose(MarkClosed(old(model), old(s.fd)), old(s.fd))
      ensures forall t :: t in socks ==> t in old(socks)
      decreases if inLooping then 0 else 4
    {
      hide Shape, FinalClose, MarkClosed;
      Mark(s);
      if !inLooping {
        Finalise(s);
      }
    }

    /** __zsocket_close: takes the socket off the list; a server also closes
        whatever else uses its port. */
    method Finalise(s: ZSocket)
      requires Valid() && s in socks && Eof in s.flags
      requires s.fd in model.tab && FinalClose(model, s.fd).Ok?
      modifies this, Repr()
      ensures Valid()
      ensures Ok(model) == FinalClose(old(model), old(s.fd))
      ensures inLooping == old(inLooping)
      ensures forall t :: t in socks ==> t in old(socks) && t != s && t.fd == old(t.fd)
      ensures socks == Without(old(socks), s)
      decreases 3
    {
      hide Shape, Linked, Unlink, Cascade, FinalClose, SharesPort;
      ghost var k := Registered(s);
      FinalIs(model, s.fd);
      Delete(s);
      assert forall t :: t in socks ==> t in old(socks);
      if s.kind == Some(Server) {
        CloseServer(s.port);
      }
      s.fd := -1;
      s.rbuf, s.wbuf, s.readCb := None, None, false;
    }

    /** list_del. */
    method Delete(s: ZSocket)
      requires Valid() && s in socks && s.fd in model.tab
      modifies this
      ensures Valid()
      ensures model == Unlink(old(model), s.fd)
      ensures inLooping == old(inLooping)
      ensures forall t :: t in socks ==> t in old(socks) && t != s
      ensures socks == Without(old(socks), s)
    {
      hide Linked, Filter, Shape;
      ghost var i := Position(socks, s);
      LinkedWithout(socks, model, i);
      MembersWithout(socks, model, i);
      socks := Without(socks, s);
      model := Unlink(model, s.fd);
    }

    /** The walk in __zsocket_close over everything on a server's port. */
    method CloseServer(port: int)
      requires Valid()
      requires if inLooping then Cascade(model, model.order, port).Ok? else !SharesPort(model, port)
      modifies this, Repr()
      ensures Valid() && inLooping == old(inLooping)
      ensures inLooping ==> Ok(model) == Cascade(old(model), old(model).order, port)
      ensures !inLooping ==> model == old(model)
      ensures socks == old(socks)
      ensures forall t :: t in socks ==> t.fd == old(t.fd)
      decreases 2
    {
      hide Linked, Shape, Cascade, SharesPort;
      var i := 0;
      assert model.order[0..] == model.order;
      Lengths();
      while i < |socks|
        invariant 0 <= i <= |socks| == |model.order| && socks == old(socks)
        invariant Valid() && inLooping == old(inLooping)
        invariant model.order == old(model).order
        invariant inLooping ==> Cascade(model, model.order[i..], port) == Cascade(old(model), old(model).order, port)
        invariant !inLooping ==> model == old(model)
        invariant forall t :: t in socks ==> t.fd == old(t.fd)
      {
        CloseUser(socks[i], port, i);
        i := i + 1;
      }
      CascadeEnd(model, port);
      assert model.order[i..] == [];
    }

    /** One turn of that walk. */
    method CloseUser(pos: ZSocket, port: int, ghost i: nat)
      requires Valid() && i < |socks| == |model.order| && pos == socks[i]
      requires if inLooping then Cascade(model, model.order[i..], port).Ok? else !SharesPort(model, port)
      modifies this, Repr()
      ensures Valid() && inLooping == old(inLooping) && socks == old(socks) && model.order == old(model).order
      ensures inLooping ==>
                Cascade(model, model.order[i + 1..], port) == Cascade(old(model), old(model).order[i..], port)
      ensures !inLooping ==> model == old(model)
      ensures forall t :: t in socks ==> t.fd == old(t.fd)
      decreases 1
    {
      hide Shape, Cascade;
      ghost var k := Registered(pos);
      ghost var f := model.order[i];
      Standing(i);
      assert model.order[i..][0] == f && model.order[i..][1..] == model.order[i + 1..];
      if inLooping {
        CascadeStep(model, model.order[i..], port);
      }
      if pos.port == port {
        assert inLooping;
        Close(pos);
      }
    }

    // ------------------------------------------------------------------
    // The API
    // ------------------------------------------------------------------

    /** list_add at the head, and the counters. */
    method Enlist(s: ZSocket, ghost f: nat, ghost v: Sock)
      requires Valid() && s !in socks && f !in model.tab && s.Is(f, v)
      modifies this`socks, this`status, this`model
      ensures Valid() && model == Register(old(model), f, v) && socks == [s] + old(socks)
    {
      hide Status.OneMore;
      LinkedWith(socks, model, s, f, v);
      hide Linked, Shape;
      socks := [s] + socks;
      status := status.OneMore(s.kind.value);
      model := Register(model, f, v);
    }

    /** Puts a descriptor in the read set and raises the watermark. */
    method SelectRead(s: ZSocket, callback: bool)
      requires Valid() && s in socks && s.fd in model.tab
      modifies this`nfdsRead, this`fdsRead, this`model, s
      ensures Valid() && model == EnableRead(old(model), old(s.fd), callback) && s.fd == old(s.fd)
    {
      hide Linked, LinkedExcept, StandsAt, Shape, Register;
      ghost var k := Detach(socks, model, s);
      ghost var selected := EnableRead(model, s.fd, callback);
      nfdsRead := if nfdsRead < s.fd + 1 then s.fd + 1 else nfdsRead;
      fdsRead := fdsRead + {s.fd};
      s.flags := s.flags + {ReadEnable};
      s.readCb := callback;
      Adopt(s, selected, k);
    }

    method Connect(client: ZSocket, sys: Option<Endpoint>) returns (rc: int)
      requires Valid() && client !in socks && client.Unused()
      requires Apply(model, Action.Connect(sys)).Ok?
      modifies this, client
      ensures Valid() && Ok(model) == Apply(old(model), Action.Connect(sys))
      ensures rc == (if sys.None? then -1 else 0) && inLooping == old(inLooping)
      ensures socks == if sys.None? then old(socks) else [client] + old(socks)
      ensures sys.Some? ==> client.kind == Some(Client) && client.fd == sys.value.fd
      ensures sys.Some? ==> client.port == sys.value.port && client.tick == sys.value.now && client.stall == 300
    {
      if sys.None? {
        return -1;
      }
      hide Linked, Shape, Register;
      client.Open(sys.value.fd, Client, sys.value.port, sys.value.now);
      Enlist(client, sys.value.fd, NewSock(Client, sys.value.port, sys.value.now));
      rc := 0;
    }

    method Listen(server: ZSocket, sys: Option<Endpoint>) returns (rc: int)
      requires Valid() && server !in socks && server.Unused()
      requires Apply(model, Action.Listen(sys)).Ok?
      modifies this, server
      ensures Valid() && Ok(model) == Apply(old(model), Action.Listen(sys))
      ensures rc == (if sys.None? then -1 else 0) && inLooping == old(inLooping)
      ensures socks == if sys.None? then old(socks) else [server] + old(socks)
    {
      if sys.None? {
        return -1;
      }
      hide Linked, Shape, SharesPort, Status.OneMore;
      server.Open(sys.value.fd, Server, sys.value.port, 0);
      ghost var before := model;
      Enlist(server, sys.value.fd, NewSock(Server, sys.value.port, 0));
      SelectRead(server, false);
      Remember(before.portClash || SharesPort(before, sys.value.port));
      rc := 0;
    }

    /** Only the memory of a port reused changes. */
    ghost method Remember(clash: bool)
      requires Valid()
      modifies this`model
      ensures Valid() && model == old(model).(portClash := clash)
    {
      SameShape(model, model.(portClash := clash));
      model := model.(portClash := clash);
    }

    /** A failing accept is not modelled here: the cleanup of zsocket_accept then
        stops at the first assertion of __zsocket_close. */
    method Accept(server: ZSocket, heapOk: bool, sys: Option<Endpoint>) returns (conn: ZSocket?)
      requires Valid() && server in socks
      requires server.fd in model.tab && Apply(model, Action.Accept(server.fd, heapOk, sys)).Ok?
      modifies this
      ensures Valid() && Ok(model) == Apply(old(model), Action.Accept(server.fd, heapOk, sys))
      ensures inLooping == old(inLooping) && (conn != null <==> heapOk)
      ensures conn != null ==> fresh(conn) && socks == [conn] + old(socks) && conn.kind == Some(Connection)
      ensures conn != null ==> sys.Some? && conn.fd == sys.value.fd && conn.port == sys.value.port
      ensures conn != null ==> conn.tick == sys.value.now && conn.stall == 300
      ensures conn == null ==> socks == old(socks)
    {
      ghost var k := Registered(server);
      if !heapOk {
        return null;
      }
      hide Linked, Shape, Register;
      conn := new ZSocket();
      conn.Open(sys.value.fd, Connection, sys.value.port, sys.value.now);
      Enlist(conn, sys.value.fd, NewSock(Connection, sys.value.port, sys.value.now));
    }

    method ReadStart(s: ZSocket)
      requires Valid() && s in socks && s.fd in model.tab
      requires Eof !in s.flags && ReadEnable !in s.flags
      modifies this, s
      ensures Valid() && Ok(model) == Apply(old(model), Action.ReadStart(old(s.fd)))
      ensures socks == old(socks) && inLooping == old(inLooping)
    {
      hide Linked, Shape;
      ghost var k := Registered(s);
      SelectRead(s, true);
    }

    method ReadStop(s: ZSocket)
      requires Valid() && s in socks && s.fd in model.tab
      requires Eof !in s.flags && ReadEnable in s.flags
      modifies this, s
      ensures Valid() && Ok(model) == Apply(old(model), Action.ReadStop(old(s.fd)))
      ensures socks == old(socks) && inLooping == old(inLooping)
    {
      hide Linked, LinkedExcept, StandsAt, Shape;
      ghost var k := Detach(socks, model, s);
      ghost var stopped := DisableRead(model, s.fd);
      nfdsRead := if nfdsRead == s.fd + 1 then nfdsRead - 1 else nfdsRead;
      fdsRead := fdsRead - {s.fd};
      s.flags := s.flags - {ReadEnable};
      s.readCb := false;
      Adopt(s, stopped, k);
    }

    /** The buffer and the descriptor of the first write. */
    method SelectWrite(s: ZSocket)
      requires Valid() && s in socks && s.fd in model.tab
      modifies this`nfdsWrite, this`fdsWrite, this`model, s
      ensures Valid() && model == EnableWrite(old(model), old(s.fd)) && s.fd == old(s.fd)
    {
      hide Linked, LinkedExcept, StandsAt, Shape, Register;
      ghost var k := Detach(socks, model, s);
      ghost var selected := EnableWrite(model, s.fd);
      s.wbuf := Some(Empty(WRITE_BUF_SIZE));
      nfdsWrite := if nfdsWrite < s.fd + 1 then s.fd + 1 else nfdsWrite;
      fdsWrite := fdsWrite + {s.fd};
      s.flags := s.flags + {WriteEnable};
      Adopt(s, selected, k);
    }

    /** zsocket_write: -1 when there is no memory for the buffer, otherwise the
        number of bytes the buffer took. */
    method Write(s: ZSocket, bytes: seq<byte>, allocOk: bool, growOk: bool) returns (n: int)
      requires Valid() && s in socks && s.fd in model.tab
      requires Apply(model, Action.Write(s.fd, bytes, allocOk, growOk)).Ok?
      modifies this, s
      ensures Valid() && Ok(model) == Apply(old(model), Action.Write(old(s.fd), bytes, allocOk, growOk))
      ensures socks == old(socks) && inLooping == old(inLooping)
      ensures n == -1 <==> WriteEnable !in old(s.flags) && !allocOk
      ensures n != -1 ==> 0 <= n <= |bytes| && s.log.accepted == old(s.log.accepted) + bytes[..n]
    {
      ghost var k := Registered(s);
      hide Linked, Shape, EnableWrite;
      if WriteEnable !in s.flags {
        if !allocOk {
          return -1;
        }
        SelectWrite(s);
      }
      n := Put(s, bytes, growOk);
    }

    /** qbuf_write on the write buffer of `s`. */
    method Put(s: ZSocket, bytes: seq<byte>, growOk: bool) returns (n: nat)
      requires Valid() && s in socks && s.fd in model.tab && s.wbuf.Some? && s.wbuf.value.Valid()
      modifies this`model, s
      ensures s.fd == old(s.fd) && old(s.fd) in old(model).tab && old(model).tab[old(s.fd)].wbuf == old(s.wbuf)
      ensures Valid() && model == WithSock(old(model), old(s.fd), PutWrite(old(model).tab[old(s.fd)], bytes, growOk))
      ensures n <= |bytes| && s.log.accepted == old(s.log.accepted) + bytes[..n]
    {
      hide Linked, LinkedExcept, StandsAt, Shape;
      ghost var k := Detach(socks, model, s);
      ghost var v := PutWrite(model.tab[s.fd], bytes, growOk);
      n := s.wbuf.value.Accepted(|bytes|, growOk);
      s.wbuf := Some(s.wbuf.value.Write(bytes, growOk));
      s.log := v.log;
      Follow(s, v, k);
    }

    // ------------------------------------------------------------------
    // Callbacks
    // ------------------------------------------------------------------

    /** The struct behind a descriptor. */
    method Find(f: nat) returns (s: ZSocket)
      requires Valid() && f in model.tab
      ensures s in socks && s.fd == f && s.Is(f, model.tab[f])
    {
      var i := 0;
      assert f in model.order;
      while socks[i].fd != f
        invariant i < |socks| && forall j :: 0 <= j < i ==> model.order[j] != f
        decreases |socks| - i
      {
        assert socks[i].Is(model.order[i], model.tab[model.order[i]]);
        i := i + 1;
        assert i < |socks|;
      }
      s := socks[i];
      assert s.Is(model.order[i], model.tab[model.order[i]]);
    }

    /** One call by a callback. Inside the loop nothing leaves the list. */
    method Perform(a: Action)
      requires Valid() && inLooping && Apply(model, a).Ok?
      modifies this, Repr()
      ensures Valid() && inLooping && Ok(model) == Apply(old(model), a)
      ensures Suffix(old(socks), socks) && forall t :: t in Repr() ==> t in old(Repr()) || fresh(t)
    {
      hide Linked, Shape, Apply;
      match a
      case Connect(sys) =>
        var s := new ZSocket();
        var _ := Connect(s, sys);
      case Listen(sys) =>
        var s := new ZSocket();
        var _ := Listen(s, sys);
      case Accept(server, heapOk, sys) =>
        Needs(a);
        var s := Find(server);
        var _ := Accept(s, heapOk, sys);
      case ReadStart(f) =>
        Needs(a);
        var s := Find(f);
        ReadStart(s);
      case ReadStop(f) =>
        Needs(a);
        var s := Find(f);
        ReadStop(s);
      case Write(f, bytes, allocOk, growOk) =>
        Needs(a);
        var s := Find(f);
        var _ := Write(s, bytes, allocOk, growOk);
      case Close(f) =>
        Needs(a);
        var s := Find(f);
        Close(s);
    }

    lemma Needs(a: Action)
      requires Valid() && Apply(model, a).Ok?
      ensures a.Accept? ==> a.server in model.tab
      ensures a.ReadStart? || a.ReadStop? || a.Write? || a.Close? ==>
              a.fd in model.tab && Eof !in model.tab[a.fd].flags
      ensures a.ReadStart? ==> ReadEnable !in model.tab[a.fd].flags
      ensures a.ReadStop? ==> ReadEnable in model.tab[a.fd].flags
      ensures a.Close? && inLooping ==> Apply(model, a) == Ok(MarkClosed(model, a.fd))
    {
    }

    /** A callback: any calls, in order. */
    method RunCalls(acts: seq<Action>)
      requires Valid() && inLooping && Calls(model, acts).Ok?
      modifies this, Repr()
      ensures Valid() && inLooping && Ok(model) == Calls(old(model), acts)
      ensures Suffix(old(socks), socks) && forall t :: t in Repr() ==> t in old(Repr()) || fresh(t)
    {
      hide Linked, Shape, Apply;
      var i := 0;
      assert acts[0..] == acts;
      while i < |acts|
        invariant 0 <= i <= |acts|
        invariant Valid() && inLooping && Calls(model, acts[i..]) == Calls(old(model), acts)
        invariant Suffix(old(socks), socks) && forall t :: t in Repr() ==> t in old(Repr()) || fresh(t)
      {
        ghost var before := socks;
        assert acts[i..][0] == acts[i] && acts[i..][1..] == acts[i + 1..];
        Perform(acts[i]);
        SuffixTwice(old(socks), before, socks);
        i := i + 1;
      }
    }

    // ------------------------------------------------------------------
    // Handlers
    // ------------------------------------------------------------------

    /** `s->state &= flag; zsocket_close(s, NULL);` inside the loop. */
    method GiveUp(s: ZSocket, flag: Flag)
      requires Valid() && s in socks && s.fd in model.tab && inLooping && flag != Eof
      modifies this, Repr()
      ensures Valid() && inLooping && model == MaskAndClose(old(model), old(s.fd), flag)
      ensures socks == old(socks) && Eof in s.flags && s.fd == old(s.fd) && s.kind == old(s.kind)
      ensures s.wbuf == old(s.wbuf) && status.closed == old(status.closed) + 1
    {
      hide Linked, LinkedExcept, StandsAt, Shape, Status.OneLess;
      ghost var k := Detach(socks, model, s);
      ghost var v := model.tab[s.fd];
      ghost var masked := WithSock(model, s.fd, v.(flags := v.flags * {flag}));
      s.flags := s.flags * {flag};
      Adopt(s, masked, k);
      Close(s);
      Recount(if Eof in v.flags then model.redundant.Add(v.kind, 1) else model.redundant);
      k := Registered(s);
      OneLessCloses(masked.status, v.kind);
    }

    lemma OneLessCloses(before: Status, kind: Kind)
      ensures before.OneLess(kind).closed == before.closed + 1
    {
    }

    /** Only the memory of redundant closes changes. */
    ghost method Recount(redundant: Tally)
      requires Valid()
      modifies this`model
      ensures Valid() && model == old(model).(redundant := redundant)
    {
      SameShape(model, model.(redundant := redundant));
      model := model.(redundant := redundant);
    }

    /** recv into the buffer, or its failure. */
    method Receive(s: ZSocket, d: Dispatch)
      requires Valid() && s in socks && s.fd in model.tab
      modifies this`model, s
      ensures Valid() && s.fd == old(s.fd)
      ensures model == WithSock(old(model), s.fd, AfterRecv(old(model).tab[s.fd], d))
    {
      hide Linked, LinkedExcept, StandsAt, Shape, AfterRecv;
      ghost var k := Detach(socks, model, s);
      s.Take(d);
      Follow(s, AfterRecv(model.tab[s.fd], d), k);
    }

    /** The bytes the callback took leave the buffer. */
    method Consume(s: ZSocket, taken: nat)
      requires Valid() && s in socks && s.fd in model.tab && s.rbuf.Some?
      modifies this`model, s
      ensures Valid() && s.fd == old(s.fd) && s.rbuf.Some? && old(model).tab[s.fd].rbuf.Some?
      ensures model == WithSock(old(model), s.fd, AfterRead(old(model).tab[s.fd], taken))
    {
      hide Linked, LinkedExcept, StandsAt, Shape;
      ghost var k := Detach(socks, model, s);
      ghost var v := AfterRead(model.tab[s.fd], taken);
      var q := s.rbuf.value;
      var nr := if taken > |q.data| then |q.data| else taken;
      if nr != 0 {
        s.rbuf := Some(q.Drop(nr).Collect(POLICY_LESS_SPARE));
      }
      s.log := v.log;
      Follow(s, v, k);
    }

    /** A full buffer is doubled, or the socket is given up. */
    method Enlarge(s: ZSocket, growOk: bool)
      requires Valid() && s in socks && s.fd in model.tab && s.rbuf.Some? && inLooping
      modifies this, Repr()
      ensures Valid() && inLooping && socks == old(socks) && s.fd == old(s.fd)
      ensures old(s.fd) in old(model).tab && old(model).tab[old(s.fd)].rbuf.Some?
      ensures model == GrowOrClose(old(model), old(s.fd), growOk)
    {
      hide Linked, LinkedExcept, StandsAt, Shape, MaskAndClose;
      ghost var k := Detach(socks, model, s);
      if s.rbuf.value.Spare() == 0 {
        if growOk {
          var q := s.rbuf.value.(size := 2 * s.rbuf.value.size);
          ghost var v := model.tab[s.fd].(rbuf := Some(q));
          s.rbuf := Some(q);
          Follow(s, v, k);
        } else {
          GiveUp(s, RbufRunout);
        }
      }
    }

    /** A callback, as the handler of `s` makes it: `s` keeps its place. */
    method Callback(s: ZSocket, acts: seq<Action>)
      requires Valid() && s in socks && s.fd in model.tab && inLooping && Calls(model, acts).Ok?
      modifies this, Repr()
      ensures Valid() && inLooping && Ok(model) == Calls(old(model), acts)
      ensures Suffix(old(socks), socks) && forall t :: t in Repr() ==> t in old(Repr()) || fresh(t)
      ensures s in socks && s.fd == old(s.fd) && s.fd in model.tab && s.Is(s.fd, model.tab[s.fd])
    {
      hide Linked, Shape, Calls;
      ghost var k := Registered(s);
      RunCalls(acts);
      CallsPrepend(old(model), acts);
      Kept(old(socks), old(model), s, k);
    }

    /** The end of zsocket_handle_recv, after its callback. */
    method Finish(s: ZSocket, taken: nat, growOk: bool)
      requires Valid() && s in socks && s.fd in model.tab && s.rbuf.Some? && inLooping
      requires model.tab[s.fd].rbuf.Some?
      modifies this, Repr()
      ensures Valid() && inLooping && socks == old(socks) && s.fd == old(s.fd)
      ensures var f := old(s.fd);
        model == GrowOrClose(WithSock(old(model), f, AfterRead(old(model).tab[f], taken)), f, growOk)
    {
      hide Linked, Shape, GrowOrClose, AfterRead;
      Consume(s, taken);
      Enlarge(s, growOk);
    }

    /** zsocket_handle_recv. */
    method HandleRecv(s: ZSocket, d: Dispatch)
      requires Valid() && s in socks && s.fd in model.tab && inLooping
      requires Sockets.HandleRecv(model, s.fd, d).Ok?
      modifies this, Repr()
      ensures Valid() && inLooping && Ok(model) == Sockets.HandleRecv(old(model), old(s.fd), d)
      ensures Suffix(old(socks), socks) && s.fd == old(s.fd)
      ensures forall t :: t in Repr() ==> t in old(Repr()) || fresh(t)
      ensures old(s.kind) != Some(Server) && (old(s.rbuf).Some? || d.rbufOk) ==> s.tick == d.now
    {
      hide Linked, Shape, Calls, Sockets.HandleRecv;
      ghost var k := Registered(s);
      RecvIs(model, s.fd, d);
      if s.kind == Some(Server) {
        Callback(s, d.acts);
        return;
      }
      if s.rbuf.None? && !d.rbufOk {
        return;
      }
      ReceiveFrom(s, d);
    }

    method ReceiveFrom(s: ZSocket, d: Dispatch)
      requires Valid() && s in socks && s.fd in model.tab && inLooping
      requires !model.tab[s.fd].kind.Server? && (model.tab[s.fd].rbuf.Some? || d.rbufOk)
      requires Sockets.HandleRecv(model, s.fd, d).Ok?
      modifies this, Repr()
      ensures Valid() && inLooping && Ok(model) == Sockets.HandleRecv(old(model), old(s.fd), d)
      ensures Suffix(old(socks), socks) && s.fd == old(s.fd)
      ensures forall t :: t in Repr() ==> t in old(Repr()) || fresh(t)
      ensures s.tick == d.now
    {
      hide Linked, Shape, Calls, Sockets.HandleRecv, GrowOrClose, AfterRead, AfterRecv;
      RecvIs(model, s.fd, d);
      Streams.RecvStamps(model, s.fd, d);
      Receive(s, d);
      Callback(s, d.acts);
      Finish(s, d.taken, d.growOk);
      StillThere(s, socks);
      ghost var k := Registered(s);
    }

    /** A struct that stood in the list before a callback stands there still. */
    lemma Kept(before: seq<ZSocket>, m: State, s: ZSocket, k: nat)
      requires Valid() && Suffix(before, socks) && Prepended(m, model) && |before| == |m.order|
      requires k < |before| && before[k] == s
      ensures s in socks && s.fd == m.order[k] && s.fd in model.tab && s.Is(s.fd, model.tab[s.fd])
    {
      var n := |socks| - |before|;
      assert socks[n..][k] == socks[n + k] && model.order[n..][k] == model.order[n + k];
      assert socks[n + k].Is(model.order[n + k], model.tab[model.order[n + k]]);
    }

    /** zsocket_handle_send. */
    method HandleSend(s: ZSocket, d: Dispatch)
      requires Valid() && s in socks && s.fd in model.tab && inLooping
      requires Sockets.HandleSend(model, s.fd, d).Ok?
      modifies this, Repr()
      ensures Valid() && inLooping && Ok(model) == Sockets.HandleSend(old(model), old(s.fd), d)
      ensures socks == old(socks) && s.fd == old(s.fd)
      ensures 0 < d.sent <= |old(Held(s.wbuf))| ==> Held(s.wbuf) == old(Held(s.wbuf))[d.sent..]
      ensures old(Held(s.wbuf)) != [] && d.sent < 0 ==> Eof in s.flags && status.closed == old(status.closed) + 1
    {
      hide Linked, Shape, MaskAndClose, AfterSend;
      ghost var k := Registered(s);
      if s.wbuf.value.data == [] {
        return;
      }
      if d.sent < 0 {
        GiveUp(s, WriteFailed);
      } else if d.sent > 0 {
        Sent(s, d.sent);
        if s.wbuf.value.Spare() == 0 {
          GiveUp(s, WbufRunout);
        }
      }
    }

    /** The bytes that went out leave the buffer. */
    method Sent(s: ZSocket, n: nat)
      requires Valid() && s in socks && s.fd in model.tab && s.wbuf.Some? && 0 < n <= |s.wbuf.value.data|
      modifies this`model, s
      ensures Valid() && s.fd == old(s.fd) && old(model).tab[s.fd].wbuf == old(s.wbuf)
      ensures model == WithSock(old(model), s.fd, AfterSend(old(model).tab[s.fd], n))
      ensures s.wbuf.Some? && s.wbuf == model.tab[s.fd].wbuf
      ensures Held(s.wbuf) == old(Held(s.wbuf))[n..]
    {
      hide Linked, LinkedExcept, StandsAt, Shape;
      ghost var k := Detach(socks, model, s);
      ghost var v := AfterSend(model.tab[s.fd], n);
      s.wbuf := Some(s.wbuf.value.Drop(n).Collect(POLICY_LESS_SPARE));
      s.log := v.log;
      Follow(s, v, k);
    }

    // ------------------------------------------------------------------
    // The loop
    // ------------------------------------------------------------------

    /** The cursor step of list_for_each_entry: the node behind `s` as the list
        is now, null at the end. */
    method Next(s: ZSocket, ghost k: nat) returns (n: ZSocket?)
      requires Valid() && StandsAt(socks, s, k)
      ensures n == if k + 1 < |socks| then socks[k + 1] else null
    {
      var i := Position(socks, s);
      assert i == k;
      n := if i + 1 < |socks| then socks[i + 1] else null;
    }

    /** The body of the dispatch loop for one socket. */
    method Serve(pos: ZSocket, r: set<nat>, w: set<nat>, d: Dispatch) returns (handled: bool)
      requires Valid() && pos in socks && pos.fd in model.tab && inLooping
      requires Visit(model, pos.fd, r, w, d).Ok?
      modifies this, Repr()
      ensures Valid() && inLooping && Ok(model) == Visit(old(model), old(pos.fd), r, w, d)
      ensures Suffix(old(socks), socks) && pos.fd == old(pos.fd)
      ensures forall t :: t in Repr() ==> t in old(Repr()) || fresh(t)
      ensures handled <==> pos.fd in r || pos.fd in w
    {
      hide Linked, Shape, Sockets.HandleRecv, Sockets.HandleSend;
      handled := false;
      ghost var k := Registered(pos);
      if pos.fd in r {
        HandleRecv(pos, d);
        StillThere(pos, old(socks));
        handled := true;
      }
      if pos.fd in w {
        HandleSend(pos, d);
        handled := true;
      }
    }

    lemma StillThere(s: ZSocket, before: seq<ZSocket>)
      requires Valid() && s in before && Suffix(before, socks)
      ensures s in socks && s.fd in model.tab
    {
      var k :| 0 <= k < |before| && before[k] == s;
      assert socks[|socks| - |before|..][k] == socks[|socks| - |before| + k];
      var j := Registered(s);
    }

    /** A struct of the suffix has its place and its descriptor. */
    lemma Place(before: seq<ZSocket>, order: seq<nat>, i: nat) returns (k: nat)
      requires Valid() && Suffix(before, socks) && Suffix(order, model.order) && |before| == |order| && i < |before|
      ensures k == |socks| - |before| + i && StandsAt(socks, before[i], k) && before[i].fd == order[i] &&
              order[i] in model.tab
      ensures before[i] in socks
    {
      hide Shape;
      k := |socks| - |before| + i;
      assert socks[|socks| - |before|..][i] == socks[k];
      assert model.order[|model.order| - |order|..][i] == model.order[k];
      var j := Detach(socks, model, before[i]);
    }

    /** One turn of the dispatch loop: the struct at place `i` of the old list is
        served, the countdown goes on, and so does the cursor, to the next struct
        of the old list. */
    method ServeNext(pos: ZSocket, r: set<nat>, w: set<nat>, world: World, left: int,
                     ghost before: seq<ZSocket>, ghost order: seq<nat>, ghost i: nat)
      returns (left': int, done: bool, next: ZSocket?)
      requires Valid() && Inv(model) && Room(model, {}) && inLooping
      requires Suffix(before, socks) && Suffix(order, model.order) && i < |order| == |before| && pos == before[i]
      requires Dispatching(model, order[i..], r, w, world, left).Ok?
      modifies this, Repr()
      ensures Valid() && Inv(model) && Room(model, {}) && inLooping
      ensures Dispatching(old(model), order[i..], r, w, world, left) ==
              if done then Ok(model) else Dispatching(model, order[i + 1..], r, w, world, left')
      ensures Suffix(before, socks) && Suffix(order, model.order)
      ensures forall t :: t in Repr() ==> t in old(Repr()) || fresh(t)
      ensures next == if i + 1 < |order| then before[i + 1] else null
    {
      hide Linked, Shape, StandsAt, Inv, Room, Visit, Dispatching;
      ghost var k := Place(before, order, i);
      DispatchStep(model, order[i..], r, w, world, left);
      assert order[i..][0] == order[i] && order[i..][1..] == order[i + 1..];
      VisitInv(model, order[i], r, w, world(order[i]));
      VisitPrepends(model, order[i], r, w, world(order[i]));
      var handled := Serve(pos, r, w, world(pos.fd));
      left' := if handled then left - 1 else left;
      done := handled && left' == 0;
      k := Place(before, order, i);
      next := Next(pos, k);
    }

    /** The dispatch loop of zsocket_poll. The cursor follows the live list, to
        which callbacks add; yet it visits the list as it stood, once each, front
        to back. */
    method DispatchAll(r: set<nat>, w: set<nat>, world: World, count: int)
      requires Valid() && Inv(model) && Room(model, {}) && inLooping
      requires Dispatching(model, model.order, r, w, world, count).Ok?
      modifies this, Repr()
      ensures Valid() && inLooping && Ok(model) == Dispatching(old(model), old(model).order, r, w, world, count)
      ensures Suffix(old(socks), socks)
      ensures forall t :: t in Repr() ==> t in old(Repr()) || fresh(t)
    {
      hide EventLoop.Valid, Linked, Shape, StandsAt, Inv, Room, Visit, Dispatching;
      ghost var before, order, i := socks, model.order, 0;
      var left := count;
      assert order[0..] == order;
      Lengths();
      var pos: ZSocket? := if socks == [] then null else socks[0];
      assert Suffix(before, socks) && Suffix(order, model.order);
      hide Suffix;
      while pos != null
        invariant 0 <= i <= |order| == |before|
        invariant Valid() && Inv(model) && Room(model, {}) && inLooping
        invariant Suffix(before, socks) && Suffix(order, model.order)
        invariant forall t :: t in Repr() ==> t in old(Repr()) || fresh(t)
        invariant pos == if i < |order| then before[i] else null
        invariant Dispatching(model, order[i..], r, w, world, left) ==
                  Dispatching(old(model), order, r, w, world, count)
        decreases |order| - i
      {
        var done, next;
        left, done, next := ServeNext(pos, r, w, world, left, before, order, i);
        if done {
          return;
        }
        pos := next;
        i := i + 1;
      }
      DispatchEnd(model, order[i..], r, w, world, left);
    }

    /** zsocket_poll. */
    method Poll(sel: Select, world: World) returns (rc: int)
      requires Valid() && Inv(model) && Room(model, {}) && inLooping
      requires Sockets.Poll(model, sel, world).Ok?
      modifies this, Repr()
      ensures Valid() && inLooping && Ok(model) == Sockets.Poll(old(model), sel, world)
      ensures rc == if sel.Broken? then -1 else 0
      ensures Suffix(old(socks), socks)
      ensures forall t :: t in Repr() ==> t in old(Repr()) || fresh(t)
    {
      hide Linked, Shape, Inv, Room, Dispatching;
      if sel.Broken? {
        return -1;
      }
      rc := 0;
      if sel.Interrupted? || |sel.r| + |sel.w| == 0 {
        return;
      }
      DispatchAll(sel.r, sel.w, world, |sel.r| + |sel.w|);
    }

    lemma Lengths()
      requires Valid()
      ensures |socks| == |model.order| && Shape(model) && inLooping == model.inLoop
    {
    }

    /** The body of the closing pass for one socket. */
    method CloseServe(pos: ZSocket, now: int)
      requires Valid() && pos in socks && pos.fd in model.tab && inLooping
      requires CloseVisit(model, pos.fd, now).Ok?
      modifies this, Repr()
      ensures Valid() && Ok(model) == CloseVisit(old(model), old(pos.fd), now) && inLooping
      ensures var goes := old(Eof in pos.flags || (pos.kind == Some(Connection) && now - pos.tick > pos.stall));
        socks == if goes then Without(old(socks), pos) else old(socks)
      ensures forall t :: t in socks ==> t in old(socks)
    {
      hide Linked, Shape, MaskAndClose, FinalClose;
      ghost var k := Registered(pos);
      if pos.kind == Some(Connection) && now - pos.tick > pos.stall {
        GiveUp(pos, Timeout);
        k := Registered(pos);
      }
      if Eof in pos.flags {
        Finalise(pos);
      }
    }

    /** A pass in its middle: of `order` and `before`, the list as it began, what
        is in front of place `i` has shrunk to `kept` and `left`. */
    ghost predicate Passing(kept: seq<nat>, left: seq<ZSocket>, before: seq<ZSocket>, order: seq<nat>, i: nat)
      reads this
    {
      && i <= |order| == |before| && |kept| == |left|
      && model.order == kept + order[i..] && socks == left + before[i..]
    }

    /** One turn of the loop in zsocket_do_close: place `i` is visited, and the
        cursor that is one ahead moves on. */
    method CloseNext(pos: ZSocket, n: ZSocket?, clock: Clock, ghost kept: seq<nat>, ghost left: seq<ZSocket>,
                     ghost before: seq<ZSocket>, ghost order: seq<nat>, ghost i: nat)
      returns (ghost kept': seq<nat>, ghost left': seq<ZSocket>, n': ZSocket?)
      requires Valid() && inLooping && Passing(kept, left, before, order, i) && i < |order| == |before|
      requires pos == before[i] && n == if i + 1 < |order| then before[i + 1] else null
      requires ClosePass(model, order[i..], clock).Ok?
      modifies this, Repr()
      ensures Valid() && inLooping && Passing(kept', left', before, order, i + 1)
      ensures ClosePass(old(model), order[i..], clock) == ClosePass(model, order[i + 1..], clock)
      ensures forall t :: t in socks ==> t in old(socks)
      ensures n' == if i + 2 < |order| then before[i + 2] else null
    {
      hide Linked, Shape, StandsAt, CloseVisit, ClosePass, Doomed, Without;
      PassStepIs(model, order[i..], clock);
      assert order[i..][0] == order[i] && order[i..][1..] == order[i + 1..];
      kept', left' := CloseOne(pos, clock, kept, left, before, order, i);
      n' := null;
      if n != null {
        ghost var k := Ahead(kept', left', order, before, i + 1);
        n' := Next(n, k);
      }
    }

    method CloseOne(pos: ZSocket, clock: Clock, ghost kept: seq<nat>, ghost left: seq<ZSocket>,
                    ghost before: seq<ZSocket>, ghost order: seq<nat>, ghost i: nat)
      returns (ghost kept': seq<nat>, ghost left': seq<ZSocket>)
      requires Valid() && inLooping && Passing(kept, left, before, order, i) && i < |order| == |before| &&
               pos == before[i]
      requires order[i] in model.tab && CloseVisit(model, order[i], clock(order[i])).Ok?
      modifies this, Repr()
      ensures Valid() && inLooping && Ok(model) == CloseVisit(old(model), order[i], clock(order[i]))
      ensures Passing(kept', left', before, order, i + 1)
      ensures forall t :: t in socks ==> t in old(socks)
    {
      hide Linked, Shape, StandsAt, CloseVisit, Without;
      ghost var k := Ahead(kept, left, order, before, i);
      ghost var j := Registered(pos);
      ghost var gone := Doomed(model.tab[order[i]], clock(order[i]));
      VisitOrder(model, kept, order, i, clock(order[i]));
      LeftStep(left, before, i);
      CloseServe(pos, clock(pos.fd));
      kept', left' := if gone then kept else kept + [order[i]], if gone then left else left + [before[i]];
    }

    /** zsocket_do_close. The safe cursor holds the next node before it visits
        the current one, so it never follows the link of a removed node. */
    method DoClose(clock: Clock)
      requires Valid() && inLooping && Sockets.DoClose(model, clock).Ok?
      modifies this, Repr()
      ensures Valid() && inLooping && Ok(model) == Sockets.DoClose(old(model), clock)
      ensures forall t :: t in socks ==> t in old(socks)
    {
      hide EventLoop.Valid, EventLoop.Passing, Linked, Shape, StandsAt, CloseVisit, ClosePass, Doomed, Without;
      ghost var before, order, i := socks, model.order, 0;
      ghost var kept: seq<nat>, left: seq<ZSocket> := [], [];
      Lengths();
      PassStarts();
      assert order[0..] == order;
      var pos: ZSocket? := if socks == [] then null else socks[0];
      var n: ZSocket? := if |socks| < 2 then null else socks[1];
      while pos != null
        invariant 0 <= i <= |order| == |before|
        invariant Valid() && inLooping && Passing(kept, left, before, order, i)
        invariant forall t :: t in socks ==> t in before
        invariant pos == if i < |order| then before[i] else null
        invariant n == if i + 1 < |order| then before[i + 1] else null
        invariant ClosePass(model, order[i..], clock) == ClosePass(old(model), order, clock)
        decreases |order| - i
      {
        var next;
        kept, left, next := CloseNext(pos, n, clock, kept, left, before, order, i);
        pos, n := n, next;
        i := i + 1;
      }
      PassEnd(model, order[i..], clock);
    }

    lemma PassStarts()
      requires |socks| == |model.order|
      ensures Passing([], [], socks, model.order, 0)
    {
      assert [] + model.order[0..] == model.order && [] + socks[0..] == socks;
    }

    /** The node at the front of what a pass has still to visit. */
    lemma Ahead(kept: seq<nat>, left: seq<ZSocket>, order: seq<nat>, before: seq<ZSocket>, i: nat) returns (k: nat)
      requires Valid() && i < |order| == |before| && Passing(kept, left, before, order, i)
      ensures k == |left| && StandsAt(socks, before[i], k) && before[i] in socks && before[i].fd == order[i] &&
              order[i] in model.tab
      ensures k + 1 < |socks| <==> i + 1 < |before|
      ensures i + 1 < |before| ==> socks[k + 1] == before[i + 1]
      ensures before[i] !in left && before[i] !in before[i + 1..]
    {
      hide Shape;
      k := |left|;
      assert socks[k] == before[i] && model.order[k] == order[i];
      var j := Detach(socks, model, before[i]);
      forall x | 0 <= x < |left| ensures left[x] != before[i] {
        assert socks[x] == left[x];
      }
      forall y | i < y < |before| ensures before[y] != before[i] {
        assert socks[k + (y - i)] == before[y];
      }
    }

    /** zsocket_loop. A broken select returns early with in_looping still set. */
    method Loop(sel: Select, world: World, clock: Clock) returns (rc: int)
      requires Valid() && Inv(model) && Room(model, {})
      requires Sockets.Loop(model, sel, world, clock).Ok?
      modifies this, Repr()
      ensures Valid() && Ok(model) == Sockets.Loop(old(model), sel, world, clock)
      ensures rc == if sel.Broken? then -1 else 0
      ensures inLooping <==> sel.Broken?
    {
      hide Linked, Inv, Room, Dispatching, Sockets.DoClose;
      InLoopInv(model, true);
      Enter(true);
      rc := Poll(sel, world);
      if rc == -1 {
        return;
      }
      DoClose(clock);
      Enter(false);
    }

    method Enter(b: bool)
      requires Valid()
      modifies this`inLooping, this`model
      ensures Valid() && model == old(model).(inLoop := b)
    {
      SameShape(model, model.(inLoop := b));
      hide Shape, Linked;
      LinkedStays(socks, model, model.(inLoop := b));
      inLooping := b;
      model := model.(inLoop := b);
    }
  }

  /** Finalising that gets through, branch by branch. */
  lemma FinalIs(st: State, f: nat)
    requires f in st.tab && FinalClose(st, f).Ok?
    ensures var s := st.tab[f]; var st' := Unlink(st, f);
      if !s.kind.Server? then FinalClose(st, f) == Ok(st')
      else if st.inLoop then FinalClose(st, f) == Cascade(st', st'.order, s.port)
      else !SharesPort(st', s.port) && FinalClose(st, f) == Ok(st')
  {
    hide Unlink, Cascade, SharesPort;
  }

  /** One turn of the cascade, unfolded. */
  lemma CascadeStep(st: State, todo: seq<nat>, port: int)
    requires todo != [] && Cascade(st, todo, port).Ok?
    ensures var f := todo[0];
      if f !in st.tab || st.tab[f].port != port then Cascade(st, todo, port) == Cascade(st, todo[1..], port)
      else Eof !in st.tab[f].flags && Cascade(st, todo, port) == Cascade(MarkClosed(st, f), todo[1..], port)
  {
    hide MarkClosed;
  }

  lemma CascadeEnd(st: State, port: int)
    ensures Cascade(st, [], port) == Ok(st)
  {
  }

  /** A dispatch that gets through, unfolded branch by branch. */
  lemma RecvIs(st: State, f: nat, d: Dispatch)
    requires f in st.tab && Sockets.HandleRecv(st, f, d).Ok?
    ensures var s := st.tab[f]; var r := Sockets.HandleRecv(st, f, d);
      if s.kind.Server? then r == Calls(st, d.acts)
      else if s.rbuf.None? && !d.rbufOk then r == Ok(st)
      else
        var c := Calls(WithSock(st, f, AfterRecv(s, d)), d.acts);
        && c.Ok? && f in c.st.tab && c.st.tab[f].rbuf.Some? && d.taken >= 0
        && r == Ok(GrowOrClose(WithSock(c.st, f, AfterRead(c.st.tab[f], d.taken)), f, d.growOk))
  {
    hide Calls, GrowOrClose, AfterRead, AfterRecv;
  }

  /** One turn of the dispatch loop, unfolded. */
  lemma DispatchStep(st: State, todo: seq<nat>, r: set<nat>, w: set<nat>, world: World, left: int)
    requires todo != [] && Dispatching(st, todo, r, w, world, left).Ok?
    ensures var f := todo[0]; var v := Visit(st, f, r, w, world(f));
      && v.Ok?
      && Dispatching(st, todo, r, w, world, left) ==
           if f !in r && f !in w then Dispatching(v.st, todo[1..], r, w, world, left)
           else if left - 1 == 0 then v
           else Dispatching(v.st, todo[1..], r, w, world, left - 1)
  {
    hide Visit;
  }

  /** One visit of the closing pass, unfolded. */
  lemma PassStepIs(st: State, todo: seq<nat>, clock: Clock)
    requires todo != [] && ClosePass(st, todo, clock).Ok?
    ensures todo[0] in st.tab && CloseVisit(st, todo[0], clock(todo[0])).Ok?
    ensures ClosePass(st, todo, clock) == ClosePass(CloseVisit(st, todo[0], clock(todo[0])).st, todo[1..], clock)
  {
    hide CloseVisit;
  }

  lemma PassEnd(st: State, todo: seq<nat>, clock: Clock)
    requires todo == []
    ensures ClosePass(st, todo, clock) == Ok(st)
  {
  }

  /** What a visit of the closing pass does to the list. */
  lemma VisitOrder(st: State, kept: seq<nat>, order: seq<nat>, i: nat, now: int)
    requires Shape(st) && st.inLoop && i < |order| && st.order == kept + order[i..]
    requires order[i] in st.tab && CloseVisit(st, order[i], now).Ok?
    ensures CloseVisit(st, order[i], now).st.order ==
            (if Doomed(st.tab[order[i]], now) then kept else kept + [order[i]]) + order[i + 1..]
    ensures order[i..][0] == order[i] && order[i..][1..] == order[i + 1..]
  {
    hide CloseVisit;
    assert order[i..] == [order[i]] + order[i + 1..];
    assert st.order == kept + [order[i]] + order[i + 1..];
    CloseVisitExact(st, kept, order[i], order[i + 1..], now);
  }

  lemma LeftStep(left: seq<ZSocket>, before: seq<ZSocket>, i: nat)
    requires i < |before| && before[i] !in left && before[i] !in before[i + 1..]
    ensures before[i] in left + before[i..] && Without(left + before[i..], before[i]) == left + before[i + 1..]
    ensures left + before[i..] == (left + [before[i]]) + before[i + 1..]
  {
    assert left + before[i..] == left + [before[i]] + before[i + 1..];
    WithoutMiddle(left, before[i], before[i + 1..]);
  }

  lemma WithoutMiddle(left: seq<ZSocket>, s: ZSocket, rest: seq<ZSocket>)
    requires s !in left && s !in rest
    ensures s in left + [s] + rest && Without(left + [s] + rest, s) == left + rest
  {
    var all := left + [s] + rest;
    assert all[|left|] == s;
    assert Position(all, s) == |left|;
  }

  lemma LinkedStays(socks: seq<ZSocket>, m: State, m': State)
    requires Linked(socks, m) && m'.order == m.order && m'.tab == m.tab
    ensures Linked(socks, m')
  {
  }

  lemma DispatchEnd(st: State, todo: seq<nat>, r: set<nat>, w: set<nat>, world: World, left: int)
    requires todo == []
    ensures Dispatching(st, todo, r, w, world, left) == Ok(st)
  {
  }

  lemma LinkedWith(socks: seq<ZSocket>, m: State, s: ZSocket, f: nat, v: Sock)
    requires Linked(socks, m) && Shape(m) && f !in m.tab && s.Is(f, v)
    ensures Linked([s] + socks, Register(m, f, v)) && Shape(Register(m, f, v))
  {
    var m' := Register(m, f, v);
    forall i | 0 <= i < |socks| + 1
      ensures m'.order[i] in m'.tab && ([s] + socks)[i].Is(m'.order[i], m'.tab[m'.order[i]])
    {
      if i > 0 {
        assert socks[i - 1].Is(m.order[i - 1], m.tab[m.order[i - 1]]);
      }
    }
  }

  lemma UnlinkOrder(st: State, kept: seq<nat>, f: nat, rest: seq<nat>)
    requires Shape(st) && st.order == kept + [f] + rest
    ensures var st' := Unlink(st, f);
      && Shape(st') && st'.order == kept + rest
      && st' == st.(order := kept + rest, tab := st'.tab)
      && st'.tab.Keys == st.tab.Keys - {f}
      && forall g :: g in st'.tab ==> st'.tab[g] == st.tab[g]
  {
    FilterOut(kept, f, rest);
    UnlinkShape(st, f);
  }

  /** The structs of the list, in order, are those of the state. */
  ghost predicate Linked(socks: seq<ZSocket>, m: State)
    reads set t | t in socks
  {
    && |socks| == |m.order|
    && forall i :: 0 <= i < |socks| ==> m.order[i] in m.tab && socks[i].Is(m.order[i], m.tab[m.order[i]])
  }

  /** The same for every struct but `s`. Changing `s` cannot disturb it. */
  ghost predicate LinkedExcept(socks: seq<ZSocket>, m: State, s: ZSocket)
    reads (set t | t in socks) - {s}
  {
    && |socks| == |m.order|
    && forall i :: 0 <= i < |socks| && socks[i] != s ==>
         m.order[i] in m.tab && socks[i].Is(m.order[i], m.tab[m.order[i]])
  }

  /** `s` stands at place `k` of the list and nowhere else. */
  ghost predicate StandsAt(socks: seq<ZSocket>, s: ZSocket, k: nat) {
    k < |socks| && socks[k] == s && forall i :: 0 <= i < |socks| && i != k ==> socks[i] != s
  }

  /** Only the socket behind `f` differs, and what is global. */
  ghost predicate OnlyAt(m: State, m': State, f: nat) {
    && m'.order == m.order && m'.tab.Keys == m.tab.Keys
    && forall g :: g in m.tab && g != f ==> m'.tab[g] == m.tab[g]
  }

  /** Before a struct is changed. */
  lemma Detach(socks: seq<ZSocket>, m: State, s: ZSocket) returns (k: nat)
    requires Linked(socks, m) && Shape(m) && s in socks
    ensures LinkedExcept(socks, m, s) && StandsAt(socks, s, k) && k < |m.order|
    ensures m.order[k] == s.fd && s.fd in m.tab && s.Is(s.fd, m.tab[s.fd])
  {
    k :| 0 <= k < |socks| && socks[k] == s;
    forall i | 0 <= i < |socks| && i != k ensures socks[i] != s {
      OrderDistinct(m, i, k);
      assert socks[i].Is(m.order[i], m.tab[m.order[i]]);
    }
  }

  /** After a struct was changed, when the state changed with it. */
  lemma Attach(socks: seq<ZSocket>, m: State, m': State, s: ZSocket, k: nat)
    requires LinkedExcept(socks, m, s) && Shape(m) && StandsAt(socks, s, k) && k < |m.order|
    requires m.order[k] in m.tab && OnlyAt(m, m', m.order[k])
    requires s.Is(m.order[k], m'.tab[m.order[k]])
    ensures Linked(socks, m') && Shape(m')
  {
    forall i | 0 <= i < |socks| ensures m'.order[i] in m'.tab && socks[i].Is(m'.order[i], m'.tab[m'.order[i]]) {
      if i != k {
        OrderDistinct(m, i, k);
        assert socks[i].Is(m.order[i], m.tab[m.order[i]]);
      }
    }
  }

  lemma LinkedWithout(socks: seq<ZSocket>, m: State, i: nat)
    requires Linked(socks, m) && Shape(m) && i < |socks|
    ensures var m' := Unlink(m, m.order[i]);
      Linked(socks[..i] + socks[i + 1..], m') && Shape(m') && socks[i].fd == m.order[i]
  {
    hide Unlink, Shape;
    var f := m.order[i];
    UnlinkAt(m, i);
    assert socks[i].Is(f, m.tab[f]);
    var left, m' := socks[..i] + socks[i + 1..], Unlink(m, f);
    forall j | 0 <= j < |left| ensures m'.order[j] in m'.tab && left[j].Is(m'.order[j], m'.tab[m'.order[j]]) {
      var k := if j < i then j else j + 1;
      assert left[j] == socks[k] && m'.order[j] == m.order[k];
      assert socks[k].Is(m.order[k], m.tab[m.order[k]]);
    }
  }

  lemma UnlinkAt(m: State, i: nat)
    requires Shape(m) && i < |m.order|
    ensures var m' := Unlink(m, m.order[i]);
      && Shape(m') && m'.order == m.order[..i] + m.order[i + 1..]
      && forall k :: 0 <= k < |m.order| && k != i ==>
           m.order[k] in m.tab && m.order[k] in m'.tab && m'.tab[m.order[k]] == m.tab[m.order[k]]
  {
    hide Unlink;
    assert m.order == m.order[..i] + [m.order[i]] + m.order[i + 1..];
    UnlinkOrder(m, m.order[..i], m.order[i], m.order[i + 1..]);
    forall k | 0 <= k < |m.order| && k != i ensures m.order[k] in m.tab && m.order[k] != m.order[i] {
      OrderDistinct(m, i, k);
    }
  }

  lemma MembersWithout(socks: seq<ZSocket>, m: State, i: nat)
    requires Linked(socks, m) && Shape(m) && i < |socks|
    ensures forall t :: t in socks[..i] + socks[i + 1..] <==> t in socks && t != socks[i]
  {
    hide Shape;
    var left, s := socks[..i] + socks[i + 1..], socks[i];
    assert s.fd == m.order[i];
    forall j | 0 <= j < |left| ensures left[j] in socks && left[j] != s {
      var k := if j < i then j else j + 1;
      assert left[j] == socks[k];
      OrderDistinct(m, i, k);
      assert socks[k].Is(m.order[k], m.tab[m.order[k]]);
    }
    forall t | t in socks && t != s ensures t in left {
      var k :| 0 <= k < |socks| && socks[k] == t;
      assert left[if k < i then k else k - 1] == t;
    }
  }

  lemma OrderDistinct(m: State, i: nat, k: nat)
    requires Shape(m) && i < |m.order| && k < |m.order| && i != k
    ensures m.order[i] != m.order[k]
  {
  }

  lemma SameShape(st: State, st': State)
    requires Shape(st) && st'.order == st.order && st'.tab.Keys == st.tab.Keys
    ensures Shape(st')
  {
  }

  function Position(ss: seq<ZSocket>, s: ZSocket): (i: nat)
    requires s in ss
    ensures i < |ss| && ss[i] == s && s !in ss[..i]
  {
    if ss[0] == s then 0 else 1 + Position(ss[1..], s)
  }

  function Without(ss: seq<ZSocket>, s: ZSocket): seq<ZSocket>
    requires s in ss
  {
    ss[..Position(ss, s)] + ss[Position(ss, s) + 1..]
  }

  /** `b` is `a` with more in front. */
  predicate Suffix<T(==)>(a: seq<T>, b: seq<T>) {
    |a| <= |b| && b[|b| - |a|..] == a
  }

  lemma SuffixTwice<T>(a: seq<T>, b: seq<T>, c: seq<T>)
    requires Suffix(a, b) && Suffix(b, c)
    ensures Suffix(a, c)
  {
    assert c[|c| - |a|..] == c[|c| - |b|..][|b| - |a|..];
  }
}
