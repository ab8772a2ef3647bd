/** When the status word of a socket tells the truth about the descriptor sets.
    A failed recv clears the whole word (zsocket.c:348) while both descriptors
    stay selected; this module says exactly when that disagreement survives. */
module FlagAgreement {
  import opened Basics
  import opened Sockets
  import opened LoopInvariant
  import opened Callbacks

  lemma WithSockAgrees(st: State, f: nat, s: Sock, g: nat)
    requires f in st.tab && g in st.tab
    requires s.flags == st.tab[f].flags && (s.wbuf.Some? <==> st.tab[f].wbuf.Some?)
    ensures Agrees(WithSock(st, f, s), g) <==> Agrees(st, g)
  {
  }

  lemma MaskAndCloseAgrees(st: State, f: nat, flag: Flag, g: nat)
    requires f in st.tab && g in st.tab && (g == f || Agrees(st, g))
    ensures g in MaskAndClose(st, f, flag).tab && Agrees(MaskAndClose(st, f, flag), g)
  {
  }

  lemma GrowOrCloseAgrees(st: State, f: nat, growOk: bool, g: nat)
    requires f in st.tab && st.tab[f].rbuf.Some? && g in st.tab
    ensures Agrees(st, g) ==> Agrees(GrowOrClose(st, f, growOk), g)
    ensures st.tab[f].rbuf.value.Spare() != 0 ==> GrowOrClose(st, f, growOk) == st
  {
    var s := st.tab[f];
    if s.rbuf.value.Spare() == 0 {
      if growOk {
        WithSockAgrees(st, f, s.(rbuf := Some(s.rbuf.value.(size := 2 * s.rbuf.value.size))), g);
      } else if Agrees(st, g) {
        MaskAndCloseAgrees(st, f, RbufRunout, g);
      }
    }
  }

  /** The last part of a read dispatch, from the return of the callback on,
      neither repairs nor breaks agreement while the buffer has room. */
  lemma TailAgrees(st: State, f: nat, taken: nat, growOk: bool, g: nat)
    requires f in st.tab && st.tab[f].rbuf.Some? && g in st.tab
    ensures var st' := GrowOrClose(WithSock(st, f, AfterRead(st.tab[f], taken)), f, growOk);
      && g in st'.tab
      && (Agrees(st, g) ==> Agrees(st', g))
      && (st.tab[f].rbuf.value.Valid() && 0 < st.tab[f].rbuf.value.Spare() ==> (Agrees(st', g) <==> Agrees(st, g)))
  {
    var s := AfterRead(st.tab[f], taken);
    WithSockAgrees(st, f, s, g);
    GrowOrCloseAgrees(WithSock(st, f, s), f, growOk, g);
    var q := st.tab[f].rbuf.value;
    var n := if taken > |q.data| then |q.data| else taken;
    if n > 0 && q.Valid() {
      DrainLeavesRoom(q, n);
    }
  }

  /** A dispatch that receives for `f`, unfolded once: the state its callback
      starts in and the state it leaves. */
  lemma RecvParts(st: State, f: nat, d: Dispatch) returns (st1: State, st2: State)
    requires Inv(st) && Room(st, {}) && st.inLoop && f in st.tab
    requires !st.tab[f].kind.Server? && (st.tab[f].rbuf.Some? || d.rbufOk)
    requires HandleRecv(st, f, d).Ok?
    ensures Inv(st1) && st1.inLoop && st1 == WithSock(st, f, AfterRecv(st.tab[f], d))
    ensures Calls(st1, d.acts) == Ok(st2) && f in st2.tab && st2.tab[f].rbuf == st1.tab[f].rbuf && d.taken >= 0
    ensures st2.tab[f].rbuf.value.Valid()
    ensures d.recv.Failed? ==> 0 < st2.tab[f].rbuf.value.Spare()
    ensures HandleRecv(st, f, d).st == GrowOrClose(WithSock(st2, f, AfterRead(st2.tab[f], d.taken)), f, d.growOk)
  {
    st1 := WithSock(st, f, AfterRecv(st.tab[f], d));
    st2 := Calls(st1, d.acts).st;
    AfterRecvInv(st.tab[f], d);
    WithSockInv(st, f, AfterRecv(st.tab[f], d));
    CallsTrack(st1, d.acts, f);
  }

  /** Exactly when a dispatch leaves its socket's flags in agreement: the recv
      did not fail, or the callback closed the socket, or it started reading
      again on a socket that never wrote. */
  lemma RecvAgreesExactly(st: State, f: nat, d: Dispatch)
    requires Inv(st) && Room(st, {}) && st.inLoop && f in st.tab && Agrees(st, f)
    requires !st.tab[f].kind.Server? && (st.tab[f].rbuf.Some? || d.rbufOk)
    requires HandleRecv(st, f, d).Ok?
    ensures Agrees(HandleRecv(st, f, d).st, f) <==>
              || !d.recv.Failed?
              || Close(f) in d.acts
              || (st.tab[f].wbuf.None? && ReadStart(f) in d.acts)
  {
    var st1, st2 := RecvParts(st, f, d);
    TailAgrees(st2, f, d.taken, d.growOk, f);
    if d.recv.Failed? {
      CallsRepairRead(st1, d.acts, f);
      if st.tab[f].wbuf.Some? {
        CallsRepairWrite(st1, d.acts, f);
      } else {
        CallsAgree(st1, d.acts, f);
      }
    } else {
      CallsAgree(st1, d.acts, f);
    }
  }

  /** No dispatch disturbs any other socket, old or new. */
  lemma RecvAgreesElsewhere(st: State, f: nat, d: Dispatch, g: nat)
    requires Inv(st) && Room(st, {}) && st.inLoop && f in st.tab && g != f
    requires g in st.tab ==> Agrees(st, g)
    requires HandleRecv(st, f, d).Ok?
    ensures Agrees(HandleRecv(st, f, d).st, g)
  {
    hide Inv, Room, Calls, AfterRecv, AfterRead, GrowOrClose;
    if st.tab[f].kind.Server? {
      CallsAgree(st, d.acts, g);
    } else if st.tab[f].rbuf.Some? || d.rbufOk {
      var st1, st2 := RecvParts(st, f, d);
      CallsAgree(st1, d.acts, g);
      if g in st2.tab {
        TailAgrees(st2, f, d.taken, d.growOk, g);
      } else {
        TailMembers(st2, f, d.taken, d.growOk);
      }
    }
  }

  lemma TailMembers(st: State, f: nat, taken: nat, growOk: bool)
    requires f in st.tab && st.tab[f].rbuf.Some?
    ensures GrowOrClose(WithSock(st, f, AfterRead(st.tab[f], taken)), f, growOk).tab.Keys == st.tab.Keys
  {
  }

  lemma SendAgrees(st: State, f: nat, d: Dispatch, g: nat)
    requires f in st.tab && HandleSend(st, f, d).Ok? && g in st.tab && Agrees(st, g)
    ensures g in HandleSend(st, f, d).st.tab && Agrees(HandleSend(st, f, d).st, g)
  {
    hide Agrees, MaskAndClose, Drain;
    var s := st.tab[f];
    if s.wbuf.Some? && s.wbuf.value.data != [] {
      if d.sent < 0 {
        MaskAndCloseAgrees(st, f, WriteFailed, g);
      } else if d.sent > 0 {
        var st' := WithSock(st, f, AfterSend(s, d.sent));
        WithSockAgrees(st, f, AfterSend(s, d.sent), g);
        if st'.tab[f].wbuf.value.Spare() == 0 {
          MaskAndCloseAgrees(st', f, WbufRunout, g);
        }
      }
    }
  }

  // ------------------------------------------------------------------
  // Whole runs
  // ------------------------------------------------------------------

  /** The application closes every socket whose recv failed, in the callback
      that learns of it. */
  ghost predicate Attentive(world: World) {
    forall f :: world(f).recv.Failed? ==> Close(f) in world(f).acts
  }

  lemma RecvAllAgree(st: State, f: nat, d: Dispatch)
    requires Inv(st) && Room(st, {}) && st.inLoop && f in st.tab && AllAgree(st)
    requires d.recv.Failed? ==> Close(f) in d.acts
    requires HandleRecv(st, f, d).Ok?
    ensures AllAgree(HandleRecv(st, f, d).st)
  {
    var st' := HandleRecv(st, f, d).st;
    forall g | g in st'.tab ensures Agrees(st', g) {
      if g != f {
        RecvAgreesElsewhere(st, f, d, g);
      } else if st.tab[f].kind.Server? {
        CallsAgree(st, d.acts, f);
      } else if st.tab[f].rbuf.Some? || d.rbufOk {
        RecvAgreesExactly(st, f, d);
      }
    }
  }

  lemma SendAllAgree(st: State, f: nat, d: Dispatch)
    requires f in st.tab && HandleSend(st, f, d).Ok? && AllAgree(st)
    ensures AllAgree(HandleSend(st, f, d).st)
  {
    var st' := HandleSend(st, f, d).st;
    forall g | g in st'.tab ensures Agrees(st', g) {
      SendAgrees(st, f, d, g);
    }
  }

  lemma {:induction false} DispatchingAgrees(st: State, todo: seq<nat>, r: set<nat>, w: set<nat>, world: World,
                                             left: int)
    requires Inv(st) && Room(st, {}) && st.inLoop && AllAgree(st) && Attentive(world)
    ensures var p := Dispatching(st, todo, r, w, world, left); p.Ok? ==> AllAgree(p.st)
    decreases |todo|
  {
    if todo == [] {
    } else {
      var f, d := todo[0], world(todo[0]);
      VisitInv(st, f, r, w, d);
      var v := Visit(st, f, r, w, d);
      if v.Ok? {
        if f in r {
          RecvAllAgree(st, f, d);
        }
        if f in w {
          SendAllAgree(if f in r then HandleRecv(st, f, d).st else st, f, d);
        }
        DispatchingAgrees(v.st, todo[1..], r, w, world, left);
        DispatchingAgrees(v.st, todo[1..], r, w, world, left - 1);
      }
    }
  }

  lemma {:induction false} CascadeAgrees(st: State, todo: seq<nat>, port: int)
    requires AllAgree(st)
    ensures var c := Cascade(st, todo, port); c.Ok? ==> AllAgree(c.st)
    decreases |todo|
  {
    if todo == [] {
    } else {
      var f := todo[0];
      if f !in st.tab || st.tab[f].port != port {
        CascadeAgrees(st, todo[1..], port);
      } else if Eof !in st.tab[f].flags {
        CascadeAgrees(MarkClosed(st, f), todo[1..], port);
      }
    }
  }

  lemma FinalCloseAgrees(st: State, f: nat)
    requires f in st.tab && AllAgree(st)
    ensures var c := FinalClose(st, f); c.Ok? ==> AllAgree(c.st)
  {
    var st' := Unlink(st, f);
    CascadeAgrees(st', st'.order, st.tab[f].port);
  }

  lemma {:induction false} ClosePassAgrees(st: State, todo: seq<nat>, clock: Clock)
    requires AllAgree(st)
    ensures var c := ClosePass(st, todo, clock); c.Ok? ==> AllAgree(c.st)
    decreases |todo|
  {
    if todo == [] {
    } else if todo[0] in st.tab {
      var f, now := todo[0], clock(todo[0]);
      var st1 := if Expired(st.tab[f], now) then MaskAndClose(st, f, Timeout) else st;
      FinalCloseAgrees(st1, f);
      var c := CloseVisit(st, f, now);
      if c.Ok? {
        ClosePassAgrees(c.st, todo[1..], clock);
      }
    }
  }

  lemma CallAllAgree(st: State, a: Action)
    requires Inv(st) && AllAgree(st) && Apply(st, a).Ok?
    ensures AllAgree(Apply(st, a).st)
  {
    if a.Close? && !st.inLoop {
      FinalCloseAgrees(MarkClosed(st, a.fd), a.fd);
    } else {
      forall g | g in Apply(st, a).st.tab ensures Agrees(Apply(st, a).st, g) {
        ApplyReadAgrees(st, a, g);
        ApplyWriteAgrees(st, a, g);
      }
    }
  }

  lemma PollAgrees(st: State, sel: Select, world: World)
    requires Inv(st) && Room(st, {}) && st.inLoop && AllAgree(st) && Attentive(world)
    ensures var p := Poll(st, sel, world); p.Ok? ==> AllAgree(p.st)
  {
    var p := Poll(st, sel, world);
    if sel.Ready? && p.Ok? && p != Ok(st) {
      var n := |sel.r| + |sel.w|;
      DispatchingAgrees(st, st.order, sel.r, sel.w, world, n);
      assert p == Dispatching(st, st.order, sel.r, sel.w, world, n);
    }
  }

  lemma EnterAgrees(st: State)
    requires AllAgree(st)
    ensures forall b :: AllAgree(st.(inLoop := b))
  {
    forall b, f | f in st.tab ensures Agrees(st.(inLoop := b), f) {
      assert Agrees(st, f);
    }
  }

  lemma LoopAgrees(st: State, sel: Select, world: World, clock: Clock)
    requires Inv(st) && Room(st, {}) && AllAgree(st) && Attentive(world)
    ensures var r := Loop(st, sel, world, clock); r.Ok? ==> AllAgree(r.st)
  {
    hide Inv, Room, Agrees, Poll, ClosePass;
    InLoopInv(st, true);
    var st0 := st.(inLoop := true);
    EnterAgrees(st);
    PollAgrees(st0, sel, world);
    var p := Poll(st0, sel, world);
    if p.Ok? && !sel.Broken? {
      ClosePassAgrees(p.st, p.st.order, clock);
      if DoClose(p.st, clock).Ok? {
        EnterAgrees(DoClose(p.st, clock).st);
      }
    }
  }

  /** Over every run with an attentive application, for every open registered
      socket: its descriptor is in the read set iff READ_ENABLE, in the write
      set iff WRITE_ENABLE, and WRITE_ENABLE iff it has a write buffer. */
  lemma {:induction false} RunAgrees(st: State, events: seq<Event>)
    requires Inv(st) && Room(st, {}) && AllAgree(st)
    requires forall e :: e in events && e.Turn? ==> Attentive(e.world)
    ensures var r := Run(st, events); r.Ok? ==> AllAgree(r.st)
    decreases |events|
  {
    if events == [] {
    } else {
      StepInv(st, events[0]);
      match events[0] {
        case Call(a) => if Apply(st, a).Ok? { CallAllAgree(st, a); }
        case Turn(sel, world, clock) => LoopAgrees(st, sel, world, clock);
      }
      var r := Step(st, events[0]);
      if r.Ok? {
        RunAgrees(r.st, events[1..]);
      }
    }
  }
}
