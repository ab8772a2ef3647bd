/** Where the closing and receiving code of zsocket.c does not do what it
    evidently means to: the exact conditions. Module Scenarios has the runs. */
module Departures {
  import ByteQueue
  import opened Sockets
  import opened LoopInvariant
  import opened Callbacks
  import FlagAgreement
  import Polling
  import opened Closing
  import Runs
  import Turns

  // ------------------------------------------------------------------
  // Closing twice in the closing pass
  // ------------------------------------------------------------------

  /** Stalled connections ahead that are closed when the pass comes to them: they
      were closed before it, or stand behind a closed server of their port. */
  ghost function Stale(st: State, todo: seq<nat>, clock: Clock): set<nat> {
    set f | f in todo && f in st.tab && Expired(st.tab[f], clock(f)) &&
      (Eof in st.tab[f].flags || Behind(st, todo, f))
  }

  lemma VisitRedundant(st: State, f: nat, now: int)
    requires f in st.tab && CloseVisit(st, f, now).Ok?
    ensures CloseVisit(st, f, now).st.redundant ==
            if Eof in st.tab[f].flags && Expired(st.tab[f], now) then st.redundant.Add(Connection, 1)
            else st.redundant
  {
    hide FinalClose;
    var st1 := if Expired(st.tab[f], now) then MaskAndClose(st, f, Timeout) else st;
    if Eof in st1.tab[f].flags {
      Runs.FinalCloseFlags(st1, f);
    }
  }

  /** Every pass that gets through closes for a second time exactly those
      connections: that is how far its counters move away from the truth. */
  lemma {:induction false} PassRedundant(st: State, kept: seq<nat>, todo: seq<nat>, clock: Clock)
    requires Midway(st, kept, todo) && ClosePass(st, todo, clock).Ok?
    ensures ClosePass(st, todo, clock).st.redundant == st.redundant.Add(Connection, |Stale(st, todo, clock)|)
    decreases |todo|
  {
    hide CloseVisit, Behind, Visited;
    if todo == [] {
      assert Stale(st, todo, clock) == {};
    } else {
      MidwayMember(st, kept, todo);
      var f, rest := todo[0], todo[1..];
      VisitRedundant(st, f, clock(f));
      var st1, kept1 := VisitFirst(st, kept, todo, clock(f));
      AfterFirst(st, kept, todo, clock(f), st1, kept1);
      PassRedundant(st1, kept1, rest, clock);
      StaleRest(st, kept, todo, clock, st1, kept1);
    }
  }

  lemma AfterFirst(st: State, kept: seq<nat>, todo: seq<nat>, now: int, st1: State, kept1: seq<nat>)
    requires todo != [] && Visited(st, kept, todo, now, st1, kept1)
    ensures Midway(st1, kept1, todo[1..])
  {
  }

  /** The same connections are counted after the first visit, but for the first
      one: what its cascade closes stood behind it. */
  lemma StaleRest(st: State, kept: seq<nat>, todo: seq<nat>, clock: Clock, st1: State, kept1: seq<nat>)
    requires todo != [] && Visited(st, kept, todo, clock(todo[0]), st1, kept1) && todo[0] in st.tab
    ensures |Stale(st, todo, clock)| == |Stale(st1, todo[1..], clock)| +
            if Eof in st.tab[todo[0]].flags && Expired(st.tab[todo[0]], clock(todo[0])) then 1 else 0
  {
    hide Behind, Visited;
    var f, rest := todo[0], todo[1..];
    forall g | g in rest ensures g in Stale(st, todo, clock) <==> g in Stale(st1, rest, clock) {
      StaleStep(st, kept, todo, clock, st1, kept1, g);
    }
    BehindStep(st, kept, todo, clock(f), st1, kept1, f);
    FirstStale(st, kept, todo, clock, st1, kept1);
    assert f in Stale(st, todo, clock) <==> Eof in st.tab[f].flags && Expired(st.tab[f], clock(f));
    StaleAhead(st, todo, clock);
    StaleAhead(st1, rest, clock);
    hide Stale;
    assert todo == [f] + rest;
    if f in Stale(st, todo, clock) {
      assert Stale(st, todo, clock) == Stale(st1, rest, clock) + {f};
    } else {
      assert Stale(st, todo, clock) == Stale(st1, rest, clock);
    }
  }

  lemma StaleAhead(st: State, todo: seq<nat>, clock: Clock)
    ensures forall f :: f in Stale(st, todo, clock) ==> f in todo
  {
  }

  lemma StaleStep(st: State, kept: seq<nat>, todo: seq<nat>, clock: Clock, st1: State, kept1: seq<nat>, g: nat)
    requires todo != [] && Visited(st, kept, todo, clock(todo[0]), st1, kept1) && g in todo[1..]
    ensures g in Stale(st, todo, clock) <==> g in Stale(st1, todo[1..], clock)
  {
    hide Behind;
    BehindStep(st, kept, todo, clock(todo[0]), st1, kept1, g);
    assert g in todo && g in st1.tab;
  }

  lemma FirstStale(st: State, kept: seq<nat>, todo: seq<nat>, clock: Clock, st1: State, kept1: seq<nat>)
    requires todo != [] && Visited(st, kept, todo, clock(todo[0]), st1, kept1)
    ensures todo[0] !in Stale(st1, todo[1..], clock)
  {
    hide Behind;
  }

  /** Starting from counters that are right, a pass that gets through leaves the
      connection counter right if and only if no stalled connection is closed
      already or stands behind a closed server of its port. */
  lemma PassCountsExactly(st: State, clock: Clock)
    requires Inv(st) && Room(st, {}) && st.inLoop && DoClose(st, clock).Ok?
    requires st.redundant.connection == 0
    ensures var st' := DoClose(st, clock).st;
      st'.status.live.connection == |Live(st'.tab, Connection)| <==>
        forall f :: f in st.tab && Expired(st.tab[f], clock(f)) ==>
          Eof !in st.tab[f].flags && !Behind(st, st.order, f)
  {
    hide Inv, Room, ClosePass, Behind, Expired, Stale, Live, Midway;
    StartsMidway(st);
    PassRedundant(st, [], st.order, clock);
    ClosePassInv(st, st.order, clock);
    LiveConnections(DoClose(st, clock).st);
    NoneStale(st, clock);
  }

  lemma StartsMidway(st: State)
    requires Inv(st) && st.inLoop
    ensures Midway(st, [], st.order)
  {
    assert [] + st.order == st.order;
  }

  lemma LiveConnections(st: State)
    requires Inv(st)
    ensures st.status.live.connection == |Live(st.tab, Connection)| - st.redundant.connection
  {
    hide Live, SocketsInv, Watermarks, Shape;
    assert st.status.live.Get(Connection) == |Live(st.tab, Connection)| - st.redundant.Get(Connection);
  }

  lemma NoneStale(st: State, clock: Clock)
    requires Inv(st)
    ensures |Stale(st, st.order, clock)| == 0 <==>
            forall f :: f in st.tab && Expired(st.tab[f], clock(f)) ==>
              Eof !in st.tab[f].flags && !Behind(st, st.order, f)
  {
    hide SocketsInv, Watermarks, Counters, Behind, Expired;
    if f :| f in st.tab && Expired(st.tab[f], clock(f)) && (Eof in st.tab[f].flags || Behind(st, st.order, f)) {
      assert f in Stale(st, st.order, clock);
    } else {
      assert Stale(st, st.order, clock) == {};
    }
  }

  // ------------------------------------------------------------------
  // Closing twice in the read handler
  // ------------------------------------------------------------------

  lemma {:induction false} CallsRedundant(st: State, acts: seq<Action>)
    requires st.inLoop && Calls(st, acts).Ok?
    ensures Calls(st, acts).st.redundant == st.redundant
    decreases |acts|
  {
    hide FinalClose;
    if acts == [] {
    } else {
      CallsRedundant(Apply(st, acts[0]).st, acts[1..]);
    }
  }

  /** Calls that are accepted leave an open socket closed iff one of them closed
      it: no later call may touch it. */
  lemma {:induction false} CallsCloseExactly(st: State, acts: seq<Action>, f: nat)
    requires Inv(st) && st.inLoop && IsOpen(st, f) && Calls(st, acts).Ok?
    ensures Turns.IsClosed(Calls(st, acts).st, f) <==> Close(f) in acts
    decreases |acts|
  {
    hide Inv, Apply;
    if acts == [] {
    } else {
      assert acts == [acts[0]] + acts[1..];
      var st1 := Apply(st, acts[0]).st;
      ApplyInv(st, acts[0]);
      ClosesOne(st, acts[0], f);
      if acts[0] == Close(f) {
        Turns.CallsKeepClosed(st1, acts[1..], f);
      } else {
        CallsCloseExactly(st1, acts[1..], f);
      }
    }
  }

  lemma ClosesOne(st: State, a: Action, f: nat)
    requires st.inLoop && IsOpen(st, f) && Apply(st, a).Ok?
    ensures Apply(st, a).st.inLoop
    ensures if a == Close(f) then Turns.IsClosed(Apply(st, a).st, f) else IsOpen(Apply(st, a).st, f)
  {
    ApplyTracks(st, a, f);
    ApplyPrepends(st, a);
  }

  /** A dispatch closes its own socket a second time exactly when the callback
      closed it and the buffer then ran full with no memory to enlarge it. */
  lemma RecvRedundantExactly(st: State, f: nat, d: Dispatch)
    requires Inv(st) && Room(st, {}) && st.inLoop && f in st.tab
    requires !st.tab[f].kind.Server? && (st.tab[f].rbuf.Some? || d.rbufOk)
    requires HandleRecv(st, f, d).Ok?
    ensures HandleRecv(st, f, d).st.redundant != st.redundant <==>
            && Close(f) in d.acts
            && Polling.RunsOut(if st.tab[f].rbuf.Some? then st.tab[f].rbuf.value else ByteQueue.Empty(READ_BUF_SIZE), d)
  {
    hide Inv, Room;
    var st1, st2 := FlagAgreement.RecvParts(st, f, d);
    CallsRedundant(st1, d.acts);
    CallsCloseExactly(st1, d.acts, f);
  }
}
