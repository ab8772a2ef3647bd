/** The dispatch loop of zsocket_poll: the early exit, the walk over a list that
    grows meanwhile, and exactly which callbacks make its assertions fail. */
module Polling {
  import opened Basics
  import opened ByteQueue
  import opened Sockets
  import opened LoopInvariant
  import opened Callbacks
  import opened FlagAgreement

  // ------------------------------------------------------------------
  // The early exit
  // ------------------------------------------------------------------

  /** The dispatch loop without its countdown: every socket is looked at. */
  function Sweep(st: State, todo: seq<nat>, r: set<nat>, w: set<nat>, world: World): Outcome
    decreases |todo|
  {
    if todo == [] then Ok(st)
    else
      var v := Visit(st, todo[0], r, w, world(todo[0]));
      if v.Ok? then Sweep(v.st, todo[1..], r, w, world) else v
  }

  function Waiting(todo: seq<nat>, ready: set<nat>): set<nat> {
    set f | f in todo && f in ready
  }

  lemma {:induction false} SweepIdle(st: State, todo: seq<nat>, r: set<nat>, w: set<nat>, world: World)
    requires forall f :: f in todo ==> f !in r && f !in w
    ensures Sweep(st, todo, r, w, world) == Ok(st)
    decreases |todo|
  {
    if todo == [] {
    } else {
      SweepIdle(st, todo[1..], r, w, world);
    }
  }

  lemma WaitingRest(todo: seq<nat>, ready: set<nat>)
    requires NoDup(todo) && todo != []
    ensures |Waiting(todo, ready)| == |Waiting(todo[1..], ready)| + if todo[0] in ready then 1 else 0
  {
    assert todo == [todo[0]] + todo[1..];
    assert todo[0] !in todo[1..];
    if todo[0] in ready {
      assert Waiting(todo, ready) == Waiting(todo[1..], ready) + {todo[0]};
    } else {
      assert Waiting(todo, ready) == Waiting(todo[1..], ready);
    }
  }

  /** As long as the countdown starts no lower than the number of ready sockets
      ahead, breaking out early and walking on come to the same. */
  lemma {:induction false} EarlyExit(st: State, todo: seq<nat>, r: set<nat>, w: set<nat>, world: World, left: int)
    requires NoDup(todo) && |Waiting(todo, r + w)| <= left
    ensures Dispatching(st, todo, r, w, world, left) == Sweep(st, todo, r, w, world)
    decreases |todo|
  {
    if todo == [] {
    } else {
      WaitingRest(todo, r + w);
      var v := Visit(st, todo[0], r, w, world(todo[0]));
      if v.Ok? {
        if todo[0] !in r + w {
          EarlyExit(v.st, todo[1..], r, w, world, left);
        } else if left - 1 == 0 {
          assert forall f :: f in todo[1..] && f in r + w ==> f in Waiting(todo[1..], r + w);
          SweepIdle(v.st, todo[1..], r, w, world);
        } else {
          EarlyExit(v.st, todo[1..], r, w, world, left - 1);
        }
      }
    }
  }

  lemma UnionBound(a: set<nat>, b: set<nat>, c: set<nat>)
    requires c <= a + b
    ensures |c| <= |a| + |b|
  {
    assert a + b == a + (b - a);
    SubsetSize(b - a, b);
    SubsetSize(c, a + b);
  }

  lemma {:induction false} SubsetSize(a: set<nat>, b: set<nat>)
    requires a <= b
    ensures |a| <= |b|
  {
    if a != {} {
      var x :| x in a;
      SubsetSize(a - {x}, b - {x});
    }
  }

  /** The break in zsocket_poll skips nobody. select counts a socket twice when
      it is ready for both, the loop counts it once, so the countdown can only
      be too high: the poll equals the full sweep over the list. */
  lemma PollSkipsNobody(st: State, sel: Select, world: World)
    requires Shape(st) && Answers(st, sel) && sel.Ready?
    ensures Poll(st, sel, world) == Sweep(st, st.order, sel.r, sel.w, world)
  {
    var ready := Waiting(st.order, sel.r + sel.w);
    UnionBound(sel.r, sel.w, ready);
    if |sel.r| + |sel.w| == 0 {
      assert sel.r == {} && sel.w == {};
      SweepIdle(st, st.order, sel.r, sel.w, world);
    } else {
      EarlyExit(st, st.order, sel.r, sel.w, world, |sel.r| + |sel.w|);
    }
  }

  // ------------------------------------------------------------------
  // One visit
  // ------------------------------------------------------------------

  /** The calls the visit of a socket makes: its callback runs unless the socket
      is not ready for reading or has no buffer and gets none. */
  function Served(s: Sock, reading: bool, d: Dispatch): seq<Action> {
    if reading && (s.kind.Server? || s.rbuf.Some? || d.rbufOk) then d.acts else []
  }

  /** A read dispatch after which its own socket can no longer send: recv failed
      (the mask took WRITE_ENABLE), or the buffer ran full and was not enlarged. */
  predicate LosesSend(s: Sock, d: Dispatch) {
    && !s.kind.Server? && (s.rbuf.Some? || d.rbufOk)
    && (d.recv.Failed? || RunsOut(if s.rbuf.Some? then s.rbuf.value else Empty(READ_BUF_SIZE), d))
  }

  predicate RunsOut(q0: Queue, d: Dispatch) {
    var q := q0.Fill(Incoming(d.recv));
    var n := if d.taken > |q.data| then |q.data| else d.taken;
    0 <= d.taken && !d.growOk && Drain(q, n).Spare() == 0
  }

  lemma SelfTracked(s: Sock)
    ensures Tracked(s, s, ModeOf(s))
  {
  }

  lemma RecvTracks(st: State, f: nat, d: Dispatch, g: nat)
    requires Inv(st) && Room(st, {}) && st.inLoop && f in st.tab && g in st.tab && g != f
    requires HandleRecv(st, f, d).Ok?
    ensures var st' := HandleRecv(st, f, d).st;
      && g in st'.tab
      && Tracked(st.tab[g], st'.tab[g], Fate(ModeOf(st.tab[g]), Served(st.tab[f], true, d), g))
  {
    hide Inv, Room, Calls, AfterRecv, AfterRead, Tracked;
    if st.tab[f].kind.Server? {
      CallsTrack(st, d.acts, g);
    } else if st.tab[f].rbuf.Some? || d.rbufOk {
      var st1, st2 := RecvParts(st, f, d);
      CallsTrack(st1, d.acts, g);
    } else {
      SelfTracked(st.tab[g]);
    }
  }

  lemma TailKeepsList(st: State, f: nat, taken: nat, growOk: bool)
    requires f in st.tab && st.tab[f].rbuf.Some?
    ensures var st' := GrowOrClose(WithSock(st, f, AfterRead(st.tab[f], taken)), f, growOk);
      st'.order == st.order && st'.inLoop == st.inLoop && st'.tab.Keys == st.tab.Keys
  {
  }

  lemma PrependedSame(a: State, b: State, c: State, d: State)
    requires Prepended(a, b) && c.order == a.order && d.order == b.order
    ensures Prepended(c, d)
  {
  }

  lemma RecvPrepends(st: State, f: nat, d: Dispatch)
    requires Inv(st) && Room(st, {}) && st.inLoop && f in st.tab && HandleRecv(st, f, d).Ok?
    requires !st.tab[f].kind.Server? && (st.tab[f].rbuf.Some? || d.rbufOk)
    ensures var st' := HandleRecv(st, f, d).st; st'.inLoop && f in st'.tab && Prepended(st, st')
  {
    var st1, st2 := RecvParts(st, f, d);
    CallsPrepend(st1, d.acts);
    TailKeepsList(st2, f, d.taken, d.growOk);
    PrependedSame(st1, st2, st, HandleRecv(st, f, d).st);
  }

  lemma SendTracks(st: State, f: nat, d: Dispatch, g: nat)
    requires f in st.tab && g in st.tab && g != f && HandleSend(st, f, d).Ok?
    ensures var st' := HandleSend(st, f, d).st; g in st'.tab && st'.tab[g] == st.tab[g]
  {
  }

  /** A visit keeps the list, apart from new sockets at the front, and touches
      other sockets only through the calls of its callback. */
  lemma VisitTracks(st: State, f: nat, r: set<nat>, w: set<nat>, d: Dispatch, g: nat)
    requires Inv(st) && Room(st, {}) && st.inLoop && f in st.tab && g in st.tab && g != f
    requires Visit(st, f, r, w, d).Ok?
    ensures var st' := Visit(st, f, r, w, d).st;
      && g in st'.tab
      && Tracked(st.tab[g], st'.tab[g], Fate(ModeOf(st.tab[g]), Served(st.tab[f], f in r, d), g))
  {
    hide Inv, Room, HandleRecv, HandleSend;
    var st1 := st;
    if f in r {
      RecvTracks(st, f, d, g);
      st1 := HandleRecv(st, f, d).st;
    }
    if f in w {
      SendTracks(st1, f, d, g);
    }
  }

  lemma ServerPrepends(st: State, f: nat, d: Dispatch)
    requires st.inLoop && f in st.tab && HandleRecv(st, f, d).Ok?
    requires st.tab[f].kind.Server? || (st.tab[f].rbuf.None? && !d.rbufOk)
    ensures var st' := HandleRecv(st, f, d).st; st'.inLoop && f in st'.tab && Prepended(st, st')
  {
    if st.tab[f].kind.Server? {
      CallsPrepend(st, d.acts);
      CallsTrack(st, d.acts, f);
    }
  }

  lemma SendKeepsList(st: State, f: nat, d: Dispatch)
    requires f in st.tab && HandleSend(st, f, d).Ok?
    ensures var st' := HandleSend(st, f, d).st;
      st'.order == st.order && st'.inLoop == st.inLoop && st'.tab.Keys == st.tab.Keys
  {
  }

  lemma VisitPrepends(st: State, f: nat, r: set<nat>, w: set<nat>, d: Dispatch)
    requires Inv(st) && Room(st, {}) && st.inLoop && f in st.tab && Visit(st, f, r, w, d).Ok?
    ensures var st' := Visit(st, f, r, w, d).st; st'.inLoop && f in st'.tab && Prepended(st, st')
  {
    var st1 := st;
    if f in r {
      st1 := HandleRecv(st, f, d).st;
      if st.tab[f].kind.Server? || (st.tab[f].rbuf.None? && !d.rbufOk) {
        ServerPrepends(st, f, d);
      } else {
        RecvPrepends(st, f, d);
      }
    }
    if f in w {
      SendKeepsList(st1, f, d);
      PrependedSame(st, st1, st, HandleSend(st1, f, d).st);
    }
  }

  /** Polling removes nothing from the list and reorders nothing; sockets that
      callbacks add stand before every socket the walk has still to reach. */
  lemma {:induction false} SweepPrepends(st: State, todo: seq<nat>, r: set<nat>, w: set<nat>, world: World)
    requires Inv(st) && Room(st, {}) && st.inLoop && (forall f :: f in todo ==> f in st.tab)
    requires Sweep(st, todo, r, w, world).Ok?
    ensures Prepended(st, Sweep(st, todo, r, w, world).st)
    decreases |todo|
  {
    if todo == [] {
    } else {
      var f, d := todo[0], world(todo[0]);
      VisitInv(st, f, r, w, d);
      VisitPrepends(st, f, r, w, d);
      var st1 := Visit(st, f, r, w, d).st;
      PrependedKeeps(st, st1);
      SweepPrepends(st1, todo[1..], r, w, world);
      PrependedTwice(st, st1, Sweep(st1, todo[1..], r, w, world).st);
    }
  }

  lemma PrependedKeeps(st: State, st': State)
    requires Shape(st) && Shape(st') && Prepended(st, st')
    ensures st.tab.Keys <= st'.tab.Keys
  {
    forall f | f in st.tab ensures f in st'.tab {
      assert f in st.order;
      assert f in st'.order[|st'.order| - |st.order|..];
    }
  }

  // ------------------------------------------------------------------
  // Exactly when the assertions of the handlers hold
  // ------------------------------------------------------------------

  /** What socket `f`, in state `s` when the poll starts, needs when its turn
      comes after the calls in `past`. Nothing in it looks at later states. */
  predicate PoliteAt(s: Sock, f: nat, reading: bool, writing: bool, d: Dispatch, past: seq<Action>) {
    && (reading ==> Fate(ModeOf(s), past, f) == Reading)
    && (writing ==>
        && WriteEnable in s.flags
        && Fate(ModeOf(s), past + Served(s, reading, d), f) != Closed
        && !(reading && LosesSend(s, d)))
  }

  /** The callbacks of a poll are polite when no ready socket is closed or left
      stopped before its turn, and none loses its send half to its own read. */
  predicate Polite(st0: State, todo: seq<nat>, r: set<nat>, w: set<nat>, world: World, past: seq<Action>)
    decreases |todo|
  {
    todo == [] ||
    var f := todo[0];
    && f in st0.tab
    && PoliteAt(st0.tab[f], f, f in r, f in w, world(f), past)
    && Polite(st0, todo[1..], r, w, world, past + Served(st0.tab[f], f in r, world(f)))
  }

  /** A read dispatch fails an assertion iff its socket is not reading, whatever
      its callback does and whether or not the API accepts it. */
  lemma RecvExact(st: State, f: nat, d: Dispatch)
    requires Inv(st) && Room(st, {}) && st.inLoop && f in st.tab
    ensures HandleRecv(st, f, d).LoopStop? <==> ModeOf(st.tab[f]) != Reading
  {
    if ModeOf(st.tab[f]) == Reading {
      ReaderHasCallback(st, f);
    }
    hide Inv, Room, Calls, AfterRecv, AfterRead, GrowOrClose;
    CallsNeverLoopStop(st, d.acts);
    CallsNeverLoopStop(WithSock(st, f, AfterRecv(st.tab[f], d)), d.acts);
  }

  /** What a read dispatch leaves of its own socket's ability to send. */
  lemma RecvOwnSend(st: State, f: nat, d: Dispatch)
    requires Inv(st) && Room(st, {}) && st.inLoop && f in st.tab
    requires st.tab[f].wbuf.Some? && HandleRecv(st, f, d).Ok?
    ensures var st' := HandleRecv(st, f, d).st;
      && f in st'.tab && st'.tab[f].wbuf.Some?
      && ((Eof !in st'.tab[f].flags && WriteEnable in st'.tab[f].flags) <==>
          && WriteEnable in st.tab[f].flags
          && Fate(ModeOf(st.tab[f]), Served(st.tab[f], true, d), f) != Closed
          && !LosesSend(st.tab[f], d))
  {
    hide Inv, Room, RunsOut;
    var s := st.tab[f];
    if s.kind.Server? {
      CallsTrack(st, d.acts, f);
    } else if s.rbuf.Some? || d.rbufOk {
      ClientOwnSend(st, f, d);
    }
  }

  lemma ClientOwnSend(st: State, f: nat, d: Dispatch)
    requires Inv(st) && Room(st, {}) && st.inLoop && f in st.tab
    requires !st.tab[f].kind.Server? && (st.tab[f].rbuf.Some? || d.rbufOk)
    requires st.tab[f].wbuf.Some? && HandleRecv(st, f, d).Ok?
    ensures var s := st.tab[f]; var st' := HandleRecv(st, f, d).st;
      && f in st'.tab && st'.tab[f].wbuf.Some?
      && (CanSend(st'.tab[f]) <==> CanSend(s) && Fate(ModeOf(s), d.acts, f) != Closed && !LosesSend(s, d))
  {
    hide Inv, Room, Calls, GrowOrClose, AfterRead, Drain;
    var s := st.tab[f];
    assert Eof !in s.flags;
    hide HandleRecv;
    var st1, st2 := RecvParts(st, f, d);
    CallsTrack(st1, d.acts, f);
    FateClosed(ModeOf(s), ModeOf(st1.tab[f]), d.acts, f);
    OwnTail(st2, f, d);
  }

  /** The end of a receive dispatch takes the send half exactly when the buffer
      stays full. */
  lemma OwnTail(st: State, f: nat, d: Dispatch)
    requires f in st.tab && st.tab[f].rbuf.Some? && st.tab[f].wbuf.Some? && d.taken >= 0
    ensures var st' := GrowOrClose(WithSock(st, f, AfterRead(st.tab[f], d.taken)), f, d.growOk);
      && f in st'.tab && st'.tab[f].wbuf.Some?
      && var q := st.tab[f].rbuf.value;
         var n := if d.taken > |q.data| then |q.data| else d.taken;
         CanSend(st'.tab[f]) <==> CanSend(st.tab[f]) && (d.growOk || Drain(q, n).Spare() != 0)
  {
    hide Drain;
  }

  predicate CanSend(s: Sock) {
    Eof !in s.flags && WriteEnable in s.flags
  }

  /** Whether calls close a socket does not depend on whether it was reading. */
  lemma {:induction false} FateClosed(m: Mode, m': Mode, acts: seq<Action>, f: nat)
    requires m == Closed <==> m' == Closed
    ensures Fate(m, acts, f) == Closed <==> Fate(m', acts, f) == Closed
    decreases |acts|
  {
    if acts == [] {
    } else {
      FateClosed(NextMode(m, acts[0], f), NextMode(m', acts[0], f), acts[1..], f);
    }
  }

  /** One visit, judged from the state `s` its socket had when the poll began. */
  lemma VisitExact(s: Sock, st: State, f: nat, r: set<nat>, w: set<nat>, d: Dispatch, past: seq<Action>)
    requires Inv(st) && Room(st, {}) && st.inLoop && f in st.tab
    requires Tracked(s, st.tab[f], Fate(ModeOf(s), past, f)) && (f in w ==> s.wbuf.Some?)
    requires !Visit(st, f, r, w, d).ApiStop?
    ensures Visit(st, f, r, w, d).Ok? <==> PoliteAt(s, f, f in r, f in w, d, past)
  {
    FateSplits(ModeOf(s), past, Served(s, f in r, d), f);
    assert past + [] == past;
    if f in r {
      RecvExact(st, f, d);
      if f in w && HandleRecv(st, f, d).Ok? {
        RecvOwnSend(st, f, d);
      }
    }
  }

  /** The theorem behind the callback contract. If every call and every answer
      of the system is one the API accepts, the sweep gets through without a
      failed assertion if and only if the callbacks are polite. */
  lemma {:induction false} SweepExact(st0: State, st: State, todo: seq<nat>, r: set<nat>, w: set<nat>,
                                      world: World, past: seq<Action>)
    requires Inv(st) && Room(st, {}) && st.inLoop && NoDup(todo)
    requires forall f :: f in todo ==> f in st0.tab && f in st.tab
    requires forall f :: f in todo ==> Tracked(st0.tab[f], st.tab[f], Fate(ModeOf(st0.tab[f]), past, f))
    requires forall f :: f in todo && f in w ==> st0.tab[f].wbuf.Some?
    requires !Sweep(st, todo, r, w, world).ApiStop?
    ensures Sweep(st, todo, r, w, world).Ok? <==> Polite(st0, todo, r, w, world, past)
    decreases |todo|
  {
    if todo == [] {
    } else {
      var f, d := todo[0], world(todo[0]);
      var v := Visit(st, f, r, w, d);
      VisitExact(st0.tab[f], st, f, r, w, d, past);
      if v.Ok? {
        VisitInv(st, f, r, w, d);
        var more := Served(st0.tab[f], f in r, d);
        forall g | g in todo[1..]
          ensures g in v.st.tab && g in st0.tab
          ensures Tracked(st0.tab[g], v.st.tab[g], Fate(ModeOf(st0.tab[g]), past + more, g))
        {
          assert g in todo && g != f;
          VisitTracks(st, f, r, w, d, g);
          FateSplits(ModeOf(st0.tab[g]), past, more, g);
          TrackedTwice(st0.tab[g], st.tab[g], v.st.tab[g],
                       Fate(ModeOf(st0.tab[g]), past, g), Fate(ModeOf(st0.tab[g]), past + more, g));
        }
        SweepExact(st0, v.st, todo[1..], r, w, world, past + more);
      }
    }
  }

  /** A poll gets through only with polite callbacks, and an assertion of the
      loop fails only with impolite ones. The third outcome, a call or an answer
      the API does not accept, is told by RecvRefusedExactly, visit by visit. */
  lemma PollExact(st: State, sel: Select, world: World)
    requires Inv(st) && Room(st, {}) && st.inLoop && sel.Ready?
    ensures Poll(st, sel, world).Ok? ==> Polite(st, st.order, sel.r, sel.w, world, [])
    ensures Poll(st, sel, world).LoopStop? ==> !Polite(st, st.order, sel.r, sel.w, world, [])
  {
    hide Inv, Room, Polite, Sweep, Dispatching;
    if !Poll(st, sel, world).ApiStop? {
      ReadyParts(st, sel);
      PollSkipsNobody(st, sel, world);
      SweepExact(st, st, st.order, sel.r, sel.w, world, []);
    }
  }

  lemma ReadyParts(st: State, sel: Select)
    requires Inv(st) && sel.Ready? && Answers(st, sel)
    ensures Shape(st) && forall f :: f in st.order && f in sel.w ==> f in st.tab && st.tab[f].wbuf.Some?
  {
    forall f | f in st.order && f in sel.w ensures f in st.tab && st.tab[f].wbuf.Some? {
      assert FdInv(st.tab[f], f in st.fdsRead, f in st.fdsWrite);
    }
  }

  /** The callback makes a call the library does not accept, or the answers are
      impossible: more bytes than there was room for, or a negative count taken. */
  predicate RecvRefused(st: State, f: nat, d: Dispatch)
    requires f in st.tab
  {
    var s := st.tab[f];
    if s.kind.Server? then !AcceptsAll(Ledger(st), d.acts)
    else
      && (s.rbuf.Some? || d.rbufOk)
      && (|| |Incoming(d.recv)| > (if s.rbuf.Some? then s.rbuf.value else Empty(READ_BUF_SIZE)).Spare()
          || !AcceptsAll(Ledger(WithSock(st, f, AfterRecv(s, d))), d.acts)
          || d.taken < 0)
  }

  /** Exactly when the dispatch of a reading socket ends in the API. */
  lemma RecvRefusedExactly(st: State, f: nat, d: Dispatch)
    requires Inv(st) && Room(st, {}) && st.inLoop && f in st.tab && ModeOf(st.tab[f]) == Reading
    ensures HandleRecv(st, f, d).ApiStop? <==> RecvRefused(st, f, d)
  {
    var s := st.tab[f];
    var st1 := WithSock(st, f, AfterRecv(s, d));
    ReaderHasCallback(st, f);
    if s.kind.Server? {
      hide Inv, Room;
      CallsAcceptedExactly(st, d.acts);
      CallsNeverLoopStop(st, d.acts);
    } else if (s.rbuf.Some? || d.rbufOk) &&
              |Incoming(d.recv)| <= (if s.rbuf.Some? then s.rbuf.value else Empty(READ_BUF_SIZE)).Spare() {
      hide Inv, Room, AcceptsAll, Ledger;
      ReceivedInv(st, f, d);
      CallsAcceptedExactly(st1, d.acts);
      CallsNeverLoopStop(st1, d.acts);
      if Calls(st1, d.acts).Ok? {
        CallsTrack(st1, d.acts, f);
      }
    }
  }

  lemma ReaderHasCallback(st: State, f: nat)
    requires Inv(st) && f in st.tab && ModeOf(st.tab[f]) == Reading
    ensures st.tab[f].kind.Server? || st.tab[f].readCb
  {
    assert FdInv(st.tab[f], f in st.fdsRead, f in st.fdsWrite);
  }

  lemma {:induction false} PoliteMember(st0: State, todo: seq<nat>, r: set<nat>, w: set<nat>, world: World,
                                        past: seq<Action>, f: nat)
    requires Polite(st0, todo, r, w, world, past) && f in todo
    ensures f in st0.tab
    ensures exists before: seq<Action> :: PoliteAt(st0.tab[f], f, f in r, f in w, world(f), before)
    decreases |todo|
  {
    if f != todo[0] {
      assert todo == [todo[0]] + todo[1..];
      PoliteMember(st0, todo[1..], r, w, world,
                   past + Served(st0.tab[todo[0]], todo[0] in r, world(todo[0])), f);
    }
  }

  /** A peer that resets a connection with output pending makes its socket ready
      for both, and recv fails: such a poll never completes, whatever the
      callback does. The mask at the failed recv took WRITE_ENABLE away. */
  lemma ResetWhileSendingStops(st: State, sel: Select, world: World, f: nat)
    requires Inv(st) && Room(st, {}) && st.inLoop && sel.Ready? && f in sel.r && f in sel.w
    requires f in st.tab && !st.tab[f].kind.Server? && (st.tab[f].rbuf.Some? || world(f).rbufOk)
    requires world(f).recv.Failed? && Answers(st, sel)
    ensures Poll(st, sel, world).LoopStop? || Poll(st, sel, world).ApiStop?
  {
    if Poll(st, sel, world).Ok? {
      PollExact(st, sel, world);
      PoliteMember(st, st.order, sel.r, sel.w, world, [], f);
    }
  }

  /** A contract an application can check by itself: callbacks keep their hands
      off the other ready sockets, and the callback of a socket that is also
      ready to send neither closes it nor loses its send half. */
  ghost predicate Considerate(todo: seq<nat>, r: set<nat>, w: set<nat>, world: World) {
    && (forall f, g :: f in todo && f in r && g in todo && (g in r || g in w) && g != f ==>
          Close(g) !in world(f).acts && ReadStop(g) !in world(f).acts)
    && (forall f :: f in todo && f in r && f in w ==>
          Close(f) !in world(f).acts && !world(f).recv.Failed? && world(f).growOk)
  }

  lemma {:induction false} FateStays(m: Mode, acts: seq<Action>, f: nat)
    requires Close(f) !in acts
    ensures m != Closed ==> Fate(m, acts, f) != Closed
    ensures m == Reading && ReadStop(f) !in acts ==> Fate(m, acts, f) == Reading
    decreases |acts|
  {
    if acts == [] {
    } else {
      assert acts == [acts[0]] + acts[1..];
      FateStays(NextMode(m, acts[0], f), acts[1..], f);
    }
  }

  lemma {:induction false} ConsiderateIsPolite(st0: State, todo: seq<nat>, r: set<nat>, w: set<nat>, world: World,
                                               past: seq<Action>)
    requires NoDup(todo) && Considerate(todo, r, w, world)
    requires forall f :: f in todo ==> f in st0.tab
    requires forall f :: f in todo && f in r ==> ModeOf(st0.tab[f]) == Reading
    requires forall f :: f in todo && f in w ==> WriteEnable in st0.tab[f].flags && ModeOf(st0.tab[f]) != Closed
    requires forall f :: f in todo && (f in r || f in w) ==> Close(f) !in past && ReadStop(f) !in past
    ensures Polite(st0, todo, r, w, world, past)
    decreases |todo|
  {
    if todo == [] {
    } else {
      var f := todo[0];
      var more := Served(st0.tab[f], f in r, world(f));
      assert todo == [f] + todo[1..];
      if f in r {
        FateStays(ModeOf(st0.tab[f]), past, f);
      }
      if f in w {
        FateStays(ModeOf(st0.tab[f]), past + more, f);
      }
      forall g | g in todo[1..] && (g in r || g in w)
        ensures Close(g) !in past + more && ReadStop(g) !in past + more
      {
        assert g in todo && g != f;
      }
      ConsiderateIsPolite(st0, todo[1..], r, w, world, past + more);
    }
  }

  /** With flags that agree with the descriptor sets and considerate callbacks,
      no assertion of the handlers can fail. */
  lemma ConsiderateNeverStops(st: State, sel: Select, world: World)
    requires Inv(st) && Room(st, {}) && st.inLoop && AllAgree(st)
    requires sel.Ready? && Considerate(st.order, sel.r, sel.w, world)
    ensures !Poll(st, sel, world).LoopStop?
  {
    if Poll(st, sel, world).LoopStop? {
      PollExact(st, sel, world);
      forall f | f in st.order && (f in sel.r || f in sel.w)
        ensures f in sel.r ==> ModeOf(st.tab[f]) == Reading
        ensures f in sel.w ==> WriteEnable in st.tab[f].flags && ModeOf(st.tab[f]) != Closed
      {
        assert Agrees(st, f) && FdInv(st.tab[f], f in st.fdsRead, f in st.fdsWrite);
      }
      ConsiderateIsPolite(st, st.order, sel.r, sel.w, world, []);
    }
  }

  // ------------------------------------------------------------------
  // Exactly which visit fails an assertion
  // ------------------------------------------------------------------

  /** The visit of socket `f` in state `st` fails an assertion: it is to be read
      from and does not read, or it is to be written to and cannot send, from the
      start or because of its own read, which the API accepted. */
  predicate VisitStops(st: State, f: nat, r: set<nat>, w: set<nat>, d: Dispatch)
    requires f in st.tab
  {
    var s := st.tab[f];
    if f in r && ModeOf(s) != Reading then true
    else if f !in w then false
    else if f !in r then !CanSend(s)
    else
      && !RecvRefused(st, f, d)
      && (!CanSend(s) || Fate(Reading, Served(s, true, d), f) == Closed || LosesSend(s, d))
  }

  lemma VisitStopsExactly(st: State, f: nat, r: set<nat>, w: set<nat>, d: Dispatch)
    requires Inv(st) && Room(st, {}) && st.inLoop && f in st.tab && (f in w ==> st.tab[f].wbuf.Some?)
    ensures Visit(st, f, r, w, d).LoopStop? <==> VisitStops(st, f, r, w, d)
  {
    hide Inv, Room, HandleRecv, RecvRefused, LosesSend;
    if f in r {
      RecvExact(st, f, d);
      if ModeOf(st.tab[f]) == Reading {
        RecvRefusedExactly(st, f, d);
        if f in w && HandleRecv(st, f, d).Ok? {
          RecvOwnSend(st, f, d);
        }
      }
    }
  }

  /** The sweep gets as far as place `k`, and its visit there stops. */
  ghost predicate StopsAt(st: State, todo: seq<nat>, r: set<nat>, w: set<nat>, world: World, k: nat) {
    && k < |todo| && Sweep(st, todo[..k], r, w, world).Ok?
    && var m := Sweep(st, todo[..k], r, w, world).st;
       todo[k] in m.tab && VisitStops(m, todo[k], r, w, world(todo[k]))
  }

  lemma {:induction false} SweepStopsExactly(st: State, todo: seq<nat>, r: set<nat>, w: set<nat>, world: World)
    requires Inv(st) && Room(st, {}) && st.inLoop && NoDup(todo)
    requires forall f :: f in todo ==> f in st.tab && (f in w ==> st.tab[f].wbuf.Some?)
    ensures Sweep(st, todo, r, w, world).LoopStop? <==> exists k :: StopsAt(st, todo, r, w, world, k)
    decreases |todo|
  {
    hide Inv, Room, Visit, VisitStops;
    if todo == [] {
    } else {
      var f, rest, d := todo[0], todo[1..], world(todo[0]);
      var v := Visit(st, f, r, w, d);
      assert todo == [f] + rest;
      VisitStopsExactly(st, f, r, w, d);
      FirstStopsAt(st, todo, r, w, world);
      if v.Ok? {
        VisitInv(st, f, r, w, d);
        forall g | g in rest ensures g in v.st.tab && (g in w ==> v.st.tab[g].wbuf.Some?) {
          VisitTracks(st, f, r, w, d, g);
        }
        SweepStopsExactly(v.st, rest, r, w, world);
        forall k: nat ensures StopsAt(st, todo, r, w, world, k + 1) <==> StopsAt(v.st, rest, r, w, world, k) {
          LaterStopsAt(st, todo, r, w, world, k);
        }
        ShiftStops(st, v.st, todo, r, w, world);
      } else {
        forall k: nat ensures k > 0 ==> !StopsAt(st, todo, r, w, world, k) {
          if 0 < k < |todo| {
            assert todo[..k][0] == f;
          }
        }
        if v.LoopStop? {
          assert StopsAt(st, todo, r, w, world, 0);
        }
      }
    }
  }

  lemma FirstStopsAt(st: State, todo: seq<nat>, r: set<nat>, w: set<nat>, world: World)
    requires todo != [] && todo[0] in st.tab
    ensures StopsAt(st, todo, r, w, world, 0) <==> VisitStops(st, todo[0], r, w, world(todo[0]))
  {
    hide VisitStops, Visit;
    assert todo[..0] == [];
  }

  lemma LaterStopsAt(st: State, todo: seq<nat>, r: set<nat>, w: set<nat>, world: World, k: nat)
    requires todo != [] && Visit(st, todo[0], r, w, world(todo[0])).Ok?
    ensures StopsAt(st, todo, r, w, world, k + 1) <==>
            StopsAt(Visit(st, todo[0], r, w, world(todo[0])).st, todo[1..], r, w, world, k)
  {
    hide VisitStops, Visit;
    if k + 1 < |todo| {
      assert todo[..k + 1][1..] == todo[1..][..k] && todo[..k + 1][0] == todo[0];
    }
  }

  lemma ShiftStops(st: State, st': State, todo: seq<nat>, r: set<nat>, w: set<nat>, world: World)
    requires todo != [] && !StopsAt(st, todo, r, w, world, 0)
    requires forall k: nat :: StopsAt(st, todo, r, w, world, k + 1) <==> StopsAt(st', todo[1..], r, w, world, k)
    ensures (exists k :: StopsAt(st, todo, r, w, world, k)) <==> exists k :: StopsAt(st', todo[1..], r, w, world, k)
  {
    hide StopsAt;
    if k: nat :| StopsAt(st, todo, r, w, world, k) {
      assert k > 0;
      assert StopsAt(st', todo[1..], r, w, world, k - 1) <==> StopsAt(st, todo, r, w, world, (k - 1) + 1);
    }
    if k: nat :| StopsAt(st', todo[1..], r, w, world, k) {
      assert StopsAt(st, todo, r, w, world, k + 1);
    }
  }

  /** Exactly when a poll fails an assertion of the loop: the visit of some socket
      that it gets to stops. No condition on what else may happen. */
  lemma PollStopsExactly(st: State, sel: Select, world: World)
    requires Inv(st) && Room(st, {}) && st.inLoop && sel.Ready? && Answers(st, sel)
    ensures Poll(st, sel, world).LoopStop? <==> exists k :: StopsAt(st, st.order, sel.r, sel.w, world, k)
  {
    hide Inv, Room, Sweep, Dispatching, StopsAt;
    ReadyParts(st, sel);
    PollSkipsNobody(st, sel, world);
    SweepStopsExactly(st, st.order, sel.r, sel.w, world);
  }
}
