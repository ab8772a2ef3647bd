/** Over one poll: exactly when the status words tell the truth about the
    descriptor sets again, although some recv failed on the way. */
module Repairs {
  import opened Basics
  import opened Sockets
  import opened LoopInvariant
  import opened Callbacks
  import opened FlagAgreement
  import opened Polling

  // ------------------------------------------------------------------
  // The condition
  // ------------------------------------------------------------------

  /** The calls that the visits of the sockets `todo` make, in order. Who is served
      can be told from the state `st0` in which the poll starts. */
  function CallsOf(st0: State, todo: seq<nat>, r: set<nat>, world: World): seq<Action> {
    if todo == [] then []
    else if todo[0] !in st0.tab then CallsOf(st0, todo[1..], r, world)
    else Served(st0.tab[todo[0]], todo[0] in r, world(todo[0])) + CallsOf(st0, todo[1..], r, world)
  }

  /** A read dispatch whose recv fails. */
  predicate Fails(s: Sock, reading: bool, d: Dispatch) {
    reading && !s.kind.Server? && (s.rbuf.Some? || d.rbufOk) && d.recv.Failed?
  }

  /** Whether some call gives socket `f` a write buffer. */
  predicate Writes(acts: seq<Action>, f: nat) {
    exists i :: 0 <= i < |acts| && acts[i].Write? && acts[i].fd == f && acts[i].allocOk
  }

  /** Every failed recv of the poll is answered: its own callback or a later one
      closes the socket, or starts to read from it again; the latter helps only a
      socket that had nothing to write so far. */
  predicate AllRepaired(st0: State, todo: seq<nat>, r: set<nat>, world: World, past: seq<Action>)
    decreases |todo|
  {
    todo != [] && todo[0] in st0.tab ==>
      var f, d := todo[0], world(todo[0]);
      var s, later := st0.tab[f], CallsOf(st0, todo, r, world);
      && (Fails(s, f in r, d) ==>
            || Close(f) in later
            || (s.wbuf.None? && !Writes(past, f) && ReadStart(f) in later))
      && AllRepaired(st0, todo[1..], r, world, past + Served(s, f in r, d))
  }

  // ------------------------------------------------------------------
  // One socket, while others are served
  // ------------------------------------------------------------------

  /** `later` are the calls still to come: do they leave `g` in agreement? */
  ghost predicate Mended(st: State, g: nat, later: seq<Action>) {
    Agrees(st, g) || Close(g) in later || (!LostWrite(st, g) && ReadStart(g) in later)
  }

  /** In a sound state a socket disagrees only because it lost a flag. */
  lemma Disagreement(st: State, g: nat)
    requires Inv(st)
    ensures !ReadAgrees(st, g) ==> LostRead(st, g)
    ensures !WriteAgrees(st, g) ==> LostWrite(st, g)
    ensures LostWrite(st, g) ==> !WriteAgrees(st, g)
  {
    if g in st.tab {
      SocketAt(st, g);
    }
  }

  /** What calls do to a socket, and what they leave to do. */
  lemma CallsMend(st: State, acts: seq<Action>, g: nat, later: seq<Action>)
    requires Inv(st) && st.inLoop && Calls(st, acts).Ok? && g in st.tab
    ensures Mended(Calls(st, acts).st, g, later) <==> Mended(st, g, acts + later)
  {
    hide Inv, ReadAgrees, WriteAgrees, LostRead, LostWrite, Calls;
    var st' := Calls(st, acts).st;
    CallsKeepInv(st, acts);
    Disagreement(st, g);
    Disagreement(st', g);
    CallsAgree(st, acts, g);
    if LostWrite(st, g) {
      CallsRepairWrite(st, acts, g);
    }
    if LostRead(st, g) {
      CallsRepairRead(st, acts, g);
    }
    if LostWrite(st, g) && Close(g) in acts {
      ClosedAgrees(st, acts, g);
    }
  }

  lemma CallsKeepInv(st: State, acts: seq<Action>)
    requires Inv(st) && st.inLoop && Calls(st, acts).Ok?
    ensures Inv(Calls(st, acts).st) && Calls(st, acts).st.inLoop
  {
    hide Inv, Calls;
    CallsInv(st, acts);
    CallsInLoop(st, acts);
  }

  /** A socket that lost its write flag and agrees about writing again is closed,
      so it agrees about reading, too. */
  lemma ClosedAgrees(st: State, acts: seq<Action>, g: nat)
    requires Inv(st) && st.inLoop && Calls(st, acts).Ok? && LostWrite(st, g) && WriteAgrees(Calls(st, acts).st, g)
    ensures ReadAgrees(Calls(st, acts).st, g)
  {
    hide Inv, Calls, Apply;
    CallsTrack(st, acts, g);
  }

  /** Nothing about `g` changed. */
  ghost predicate SameAt(st: State, st': State, g: nat) {
    && g in st.tab && g in st'.tab && st'.tab[g].flags == st.tab[g].flags && st'.tab[g].wbuf == st.tab[g].wbuf
    && (g in st'.fdsRead <==> g in st.fdsRead) && (g in st'.fdsWrite <==> g in st.fdsWrite)
  }

  lemma SameMended(st: State, st': State, g: nat, later: seq<Action>)
    requires SameAt(st, st', g)
    ensures Mended(st', g, later) <==> Mended(st, g, later)
  {
  }

  lemma TailSame(st: State, f: nat, taken: nat, growOk: bool, g: nat)
    requires f in st.tab && st.tab[f].rbuf.Some? && g in st.tab
    requires g != f || (st.tab[f].rbuf.value.Valid() && 0 < st.tab[f].rbuf.value.Spare())
    ensures SameAt(st, GrowOrClose(WithSock(st, f, AfterRead(st.tab[f], taken)), f, growOk), g)
  {
    var q := st.tab[f].rbuf.value;
    var n := if taken > |q.data| then |q.data| else taken;
    if g == f && n > 0 {
      DrainLeavesRoom(q, n);
    }
  }

  /** A dispatch, seen from another socket. */
  lemma RecvMends(st: State, f: nat, d: Dispatch, g: nat, later: seq<Action>)
    requires Inv(st) && Room(st, {}) && st.inLoop && f in st.tab && g in st.tab && g != f
    requires HandleRecv(st, f, d).Ok?
    ensures g in HandleRecv(st, f, d).st.tab
    ensures Mended(HandleRecv(st, f, d).st, g, later) <==> Mended(st, g, Served(st.tab[f], true, d) + later)
  {
    hide Inv, Room, Mended, GrowOrClose, AfterRead, AfterRecv, Calls;
    if st.tab[f].kind.Server? {
      CallsMend(st, d.acts, g, later);
      CallsTrack(st, d.acts, g);
    } else if st.tab[f].rbuf.Some? || d.rbufOk {
      var st1, st2 := RecvParts(st, f, d);
      SameMended(st, st1, g, d.acts + later);
      CallsMend(st1, d.acts, g, later);
      CallsTrack(st1, d.acts, g);
      TailSame(st2, f, d.taken, d.growOk, g);
      SameMended(st2, HandleRecv(st, f, d).st, g, later);
    } else {
      assert [] + later == later;
    }
  }

  lemma SendMends(st: State, f: nat, d: Dispatch, g: nat, later: seq<Action>)
    requires f in st.tab && g in st.tab && g != f && HandleSend(st, f, d).Ok?
    ensures g in HandleSend(st, f, d).st.tab
    ensures Mended(HandleSend(st, f, d).st, g, later) <==> Mended(st, g, later)
  {
    hide Mended, Drain, MaskAndClose, SameAt;
    var s := st.tab[f];
    SameSelf(st, g);
    if s.wbuf.value.data != [] && d.sent != 0 {
      if d.sent < 0 {
        MaskSame(st, f, WriteFailed, g);
      } else {
        var st' := WithSock(st, f, AfterSend(s, d.sent));
        WithSockSame(st, f, AfterSend(s, d.sent), g);
        SameMended(st, st', g, later);
        if st'.tab[f].wbuf.value.Spare() == 0 {
          MaskSame(st', f, WbufRunout, g);
          SameMended(st', MaskAndClose(st', f, WbufRunout), g, later);
        }
        return;
      }
    }
    SameMended(st, HandleSend(st, f, d).st, g, later);
  }

  lemma SameSelf(st: State, g: nat)
    requires g in st.tab
    ensures SameAt(st, st, g)
  {
  }

  lemma WithSockSame(st: State, f: nat, s: Sock, g: nat)
    requires f in st.tab && g in st.tab && g != f
    ensures SameAt(st, WithSock(st, f, s), g) && g in WithSock(st, f, s).tab
  {
  }

  lemma MaskSame(st: State, f: nat, flag: Flag, g: nat)
    requires f in st.tab && g in st.tab && g != f
    ensures SameAt(st, MaskAndClose(st, f, flag), g) && g in MaskAndClose(st, f, flag).tab
  {
  }

  /** A dispatch, seen from its own socket. */
  lemma OwnMends(st: State, f: nat, d: Dispatch, later: seq<Action>)
    requires Inv(st) && Room(st, {}) && st.inLoop && f in st.tab && Agrees(st, f)
    requires HandleRecv(st, f, d).Ok?
    ensures f in HandleRecv(st, f, d).st.tab
    ensures var calls := Served(st.tab[f], true, d) + later;
      Mended(HandleRecv(st, f, d).st, f, later) <==>
        (Fails(st.tab[f], true, d) ==> Close(f) in calls || (st.tab[f].wbuf.None? && ReadStart(f) in calls))
  {
    hide Inv, Room, Mended, GrowOrClose, AfterRead, Calls, ReadAgrees, WriteAgrees;
    if st.tab[f].kind.Server? {
      CallsAgree(st, d.acts, f);
      CallsTrack(st, d.acts, f);
      AgreesIsMended(HandleRecv(st, f, d).st, f, later);
    } else if st.tab[f].rbuf.Some? || d.rbufOk {
      var st1, st2 := RecvParts(st, f, d);
      CallsTrack(st1, d.acts, f);
      TailMembers(st2, f, d.taken, d.growOk);
      if d.recv.Failed? {
        CallsMend(st1, d.acts, f, later);
        AfterFailure(st, f, d, d.acts + later);
        TailSame(st2, f, d.taken, d.growOk, f);
        SameMended(st2, HandleRecv(st, f, d).st, f, later);
      } else {
        RecvAgreesExactly(st, f, d);
        AgreesIsMended(HandleRecv(st, f, d).st, f, later);
      }
    } else {
      AgreesIsMended(st, f, later);
    }
  }

  lemma AgreesIsMended(st: State, g: nat, later: seq<Action>)
    ensures Agrees(st, g) ==> Mended(st, g, later)
  {
  }

  /** A socket right after its failed recv. */
  lemma AfterFailure(st: State, f: nat, d: Dispatch, later: seq<Action>)
    requires f in st.tab && Agrees(st, f) && d.recv.Failed?
    requires HandleRecv(st, f, d).Ok? && !st.tab[f].kind.Server? && (st.tab[f].rbuf.Some? || d.rbufOk)
    ensures Mended(WithSock(st, f, AfterRecv(st.tab[f], d)), f, later) <==>
            Close(f) in later || (st.tab[f].wbuf.None? && ReadStart(f) in later)
  {
    hide Calls, GrowOrClose, AfterRead;
    var s := AfterRecv(st.tab[f], d);
    assert Eof !in s.flags && ReadEnable !in s.flags && WriteEnable !in s.flags;
  }

  // ------------------------------------------------------------------
  // One visit
  // ------------------------------------------------------------------

  lemma VisitMends(st: State, f: nat, r: set<nat>, w: set<nat>, d: Dispatch, g: nat, later: seq<Action>)
    requires Inv(st) && Room(st, {}) && st.inLoop && f in st.tab && g in st.tab && g != f
    requires Visit(st, f, r, w, d).Ok?
    ensures g in Visit(st, f, r, w, d).st.tab
    ensures Mended(Visit(st, f, r, w, d).st, g, later) <==> Mended(st, g, Served(st.tab[f], f in r, d) + later)
  {
    hide Inv, Room, Mended, HandleRecv, HandleSend;
    if f in r {
      RecvMends(st, f, d, g, later);
    } else {
      assert [] + later == later;
    }
    var st1 := if f in r then HandleRecv(st, f, d).st else st;
    if f in w {
      SendMends(st1, f, d, g, later);
    }
  }

  lemma VisitMendsOwn(st: State, f: nat, r: set<nat>, w: set<nat>, d: Dispatch, later: seq<Action>)
    requires Inv(st) && Room(st, {}) && st.inLoop && f in st.tab && Agrees(st, f)
    requires f in w ==> st.tab[f].wbuf.Some?
    requires Visit(st, f, r, w, d).Ok?
    ensures f in Visit(st, f, r, w, d).st.tab
    ensures var calls := Served(st.tab[f], f in r, d) + later;
      Mended(Visit(st, f, r, w, d).st, f, later) <==>
        (Fails(st.tab[f], f in r, d) ==> Close(f) in calls || (st.tab[f].wbuf.None? && ReadStart(f) in calls))
  {
    hide Inv, Room, Mended, HandleRecv, Agrees;
    if f in r {
      OwnMends(st, f, d, later);
    } else {
      AgreesIsMended(st, f, later);
    }
    var st1 := if f in r then HandleRecv(st, f, d).st else st;
    if f in w {
      NotFailing(st, f, r, d);
      OwnAgrees(st, f, r, d);
      SendAgrees(st1, f, d, f);
      AgreesIsMended(Visit(st, f, r, w, d).st, f, later);
    }
  }

  /** Who can still send after the own read did not fail. */
  lemma NotFailing(st: State, f: nat, r: set<nat>, d: Dispatch)
    requires Inv(st) && Room(st, {}) && st.inLoop && f in st.tab && st.tab[f].wbuf.Some?
    requires f in r ==> HandleRecv(st, f, d).Ok?
    requires var st1 := if f in r then HandleRecv(st, f, d).st else st; f in st1.tab && HandleSend(st1, f, d).Ok?
    ensures !Fails(st.tab[f], f in r, d)
  {
    hide Inv, Room, HandleRecv;
    if f in r {
      RecvOwnSend(st, f, d);
    }
  }

  lemma OwnAgrees(st: State, f: nat, r: set<nat>, d: Dispatch)
    requires Inv(st) && Room(st, {}) && st.inLoop && f in st.tab && Agrees(st, f) && !Fails(st.tab[f], f in r, d)
    requires f in r ==> HandleRecv(st, f, d).Ok?
    ensures Agrees(if f in r then HandleRecv(st, f, d).st else st, f)
  {
    hide Inv, Room, ReadAgrees, WriteAgrees, Calls, GrowOrClose, AfterRead, AfterRecv;
    if f in r {
      if st.tab[f].kind.Server? {
        CallsAgree(st, d.acts, f);
      } else if st.tab[f].rbuf.Some? || d.rbufOk {
        RecvAgreesExactly(st, f, d);
      }
    }
  }

  // ------------------------------------------------------------------
  // Write buffers
  // ------------------------------------------------------------------

  lemma WritesAppend(a: seq<Action>, b: seq<Action>, f: nat)
    ensures Writes(a + b, f) <==> Writes(a, f) || Writes(b, f)
  {
    forall i | 0 <= i < |a| + |b| ensures (a + b)[i] == if i < |a| then a[i] else b[i - |a|] {
    }
    if i :| 0 <= i < |b| && b[i].Write? && b[i].fd == f && b[i].allocOk {
      assert (a + b)[|a| + i] == b[i];
    }
    if i :| 0 <= i < |a| && a[i].Write? && a[i].fd == f && a[i].allocOk {
      assert (a + b)[i] == a[i];
    }
  }

  lemma {:induction false} CallsWrite(st: State, acts: seq<Action>, f: nat)
    requires st.inLoop && f in st.tab && Calls(st, acts).Ok?
    ensures f in Calls(st, acts).st.tab
    ensures Calls(st, acts).st.tab[f].wbuf.None? <==> st.tab[f].wbuf.None? && !Writes(acts, f)
    decreases |acts|
  {
    hide Apply;
    if acts == [] {
      assert !Writes(acts, f);
    } else {
      assert acts == [acts[0]] + acts[1..];
      WritesAppend([acts[0]], acts[1..], f);
      ApplyPrepends(st, acts[0]);
      ApplyTracks(st, acts[0], f);
      ApplyWrites(st, acts[0], f);
      CallsWrite(Apply(st, acts[0]).st, acts[1..], f);
    }
  }

  lemma ApplyWrites(st: State, a: Action, f: nat)
    requires st.inLoop && f in st.tab && Apply(st, a).Ok? && f in Apply(st, a).st.tab
    ensures Apply(st, a).st.tab[f].wbuf.None? <==> st.tab[f].wbuf.None? && !Writes([a], f)
  {
    hide FinalClose, SharesPort;
    assert Writes([a], f) <==> a.Write? && a.fd == f && a.allocOk by {
      assert [a][0] == a;
    }
    match a
    case Connect(sys) =>
    case Listen(sys) =>
    case Accept(_, heapOk, sys) =>
    case ReadStart(g) =>
    case ReadStop(g) =>
    case Write(g, _, _, _) =>
    case Close(g) =>
  }

  lemma RecvWrites(st: State, f: nat, d: Dispatch, g: nat)
    requires Inv(st) && Room(st, {}) && st.inLoop && f in st.tab && g in st.tab && g != f && HandleRecv(st, f, d).Ok?
    ensures g in HandleRecv(st, f, d).st.tab
    ensures HandleRecv(st, f, d).st.tab[g].wbuf.None? <==>
            st.tab[g].wbuf.None? && !Writes(Served(st.tab[f], true, d), g)
  {
    hide Inv, Room, GrowOrClose, AfterRead, AfterRecv, Calls, Writes;
    if st.tab[f].kind.Server? {
      CallsWrite(st, d.acts, g);
    } else if st.tab[f].rbuf.Some? || d.rbufOk {
      var st1, st2 := RecvParts(st, f, d);
      CallsWrite(st1, d.acts, g);
      TailSame(st2, f, d.taken, d.growOk, g);
    } else {
      NoWrites(g);
    }
  }

  lemma NoWrites(f: nat)
    ensures !Writes([], f)
  {
  }

  lemma VisitWrites(st: State, f: nat, r: set<nat>, w: set<nat>, d: Dispatch, g: nat)
    requires Inv(st) && Room(st, {}) && st.inLoop && f in st.tab && g in st.tab && g != f && Visit(st, f, r, w, d).Ok?
    ensures g in Visit(st, f, r, w, d).st.tab
    ensures Visit(st, f, r, w, d).st.tab[g].wbuf.None? <==>
            st.tab[g].wbuf.None? && !Writes(Served(st.tab[f], f in r, d), g)
  {
    hide Inv, Room, HandleRecv, HandleSend, Writes;
    if f in r {
      RecvWrites(st, f, d, g);
    } else {
      NoWrites(g);
    }
    var st1 := if f in r then HandleRecv(st, f, d).st else st;
    if f in w {
      SendTracks(st1, f, d, g);
    }
  }

  // ------------------------------------------------------------------
  // The whole poll
  // ------------------------------------------------------------------

  /** A sweep in its middle: what the sockets ahead still have in common with the
      state `st0` in which it began, after the calls in `past`. */
  ghost predicate Intact(st0: State, st: State, todo: seq<nat>, w: set<nat>, past: seq<Action>) {
    && NoDup(todo)
    && forall f :: f in todo ==>
         && f in st0.tab && f in st.tab && Agrees(st, f)
         && st.tab[f].kind == st0.tab[f].kind && st.tab[f].rbuf == st0.tab[f].rbuf
         && (st.tab[f].wbuf.None? <==> st0.tab[f].wbuf.None? && !Writes(past, f))
         && (f in w ==> st.tab[f].wbuf.Some?)
  }

  lemma IntactStep(st0: State, st: State, todo: seq<nat>, r: set<nat>, w: set<nat>, d: Dispatch, past: seq<Action>)
    requires Inv(st) && Room(st, {}) && st.inLoop && todo != [] && Intact(st0, st, todo, w, past)
    requires todo[0] in st.tab && todo[0] in st0.tab && Visit(st, todo[0], r, w, d).Ok?
    ensures var acts := Served(st0.tab[todo[0]], todo[0] in r, d);
      Intact(st0, Visit(st, todo[0], r, w, d).st, todo[1..], w, past + acts)
  {
    hide Inv, Room, Visit, Writes, Agrees;
    var f, acts := todo[0], Served(st.tab[todo[0]], todo[0] in r, d);
    assert acts == Served(st0.tab[f], f in r, d);
    forall g | g in todo[1..]
      ensures g != f && g in st.tab && g in Visit(st, f, r, w, d).st.tab && Agrees(Visit(st, f, r, w, d).st, g)
      ensures var s := Visit(st, f, r, w, d).st.tab[g];
        && s.kind == st.tab[g].kind && s.rbuf == st.tab[g].rbuf
        && (s.wbuf.None? <==> st.tab[g].wbuf.None? && !Writes(acts, g))
    {
      assert g in todo && g != f;
      VisitTracks(st, f, r, w, d, g);
      VisitWrites(st, f, r, w, d, g);
      VisitAgrees(st, f, r, w, d, g);
    }
    forall g ensures Writes(past + acts, g) <==> Writes(past, g) || Writes(acts, g) {
      WritesAppend(past, acts, g);
    }
  }

  lemma VisitAgrees(st: State, f: nat, r: set<nat>, w: set<nat>, d: Dispatch, g: nat)
    requires Inv(st) && Room(st, {}) && st.inLoop && f in st.tab && g != f && Visit(st, f, r, w, d).Ok?
    requires g in st.tab ==> Agrees(st, g)
    ensures Agrees(Visit(st, f, r, w, d).st, g)
  {
    hide Inv, Room, HandleRecv;
    if f in r {
      RecvAgreesElsewhere(st, f, d, g);
    }
    var st1 := if f in r then HandleRecv(st, f, d).st else st;
    if f in w {
      if g in st1.tab {
        SendAgrees(st1, f, d, g);
      } else {
        SendKeepsList(st1, f, d);
      }
    }
  }

  /** What the sweep over `todo` leaves of the sockets it does not serve. */
  ghost predicate OthersMended(st: State, todo: seq<nat>, later: seq<Action>) {
    forall g :: g in st.tab && g !in todo ==> Mended(st, g, later)
  }

  lemma {:induction false} SweepAgreesExactly(st0: State, st: State, todo: seq<nat>, r: set<nat>, w: set<nat>,
                                              world: World, past: seq<Action>)
    requires Inv(st) && Room(st, {}) && st.inLoop && Intact(st0, st, todo, w, past)
    requires Sweep(st, todo, r, w, world).Ok?
    ensures AllAgree(Sweep(st, todo, r, w, world).st) <==>
            OthersMended(st, todo, CallsOf(st0, todo, r, world)) && AllRepaired(st0, todo, r, world, past)
    decreases |todo|
  {
    hide Inv, Room, Visit, Mended, Fails, Writes, Agrees;
    if todo == [] {
      forall g ensures Mended(st, g, []) <==> Agrees(st, g) {
        MendedNow(st, g);
      }
    } else {
      var f, rest, d := todo[0], todo[1..], world(todo[0]);
      var s, acts := st0.tab[f], Served(st0.tab[f], f in r, d);
      var st' := Visit(st, f, r, w, d).st;
      VisitInv(st, f, r, w, d);
      IntactStep(st0, st, todo, r, w, d, past);
      SweepAgreesExactly(st0, st', rest, r, w, world, past + acts);
      VisitOthers(st0, st, todo, r, w, world, past);
    }
  }

  lemma MendedNow(st: State, g: nat)
    ensures Mended(st, g, []) <==> Agrees(st, g)
  {
  }

  /** What is mended after the first visit, told from before it. */
  lemma VisitOthers(st0: State, st: State, todo: seq<nat>, r: set<nat>, w: set<nat>, world: World, past: seq<Action>)
    requires Inv(st) && Room(st, {}) && st.inLoop && todo != [] && Intact(st0, st, todo, w, past)
    requires todo[0] in st0.tab && Visit(st, todo[0], r, w, world(todo[0])).Ok?
    ensures var f := todo[0]; var s, calls := st0.tab[f], CallsOf(st0, todo, r, world);
      OthersMended(Visit(st, f, r, w, world(f)).st, todo[1..], CallsOf(st0, todo[1..], r, world)) <==>
        && OthersMended(st, todo, calls)
        && (Fails(s, f in r, world(f)) ==>
              Close(f) in calls || (s.wbuf.None? && !Writes(past, f) && ReadStart(f) in calls))
  {
    hide Inv, Room, Visit, Mended, Agrees, Writes;
    var f, rest, d := todo[0], todo[1..], world(todo[0]);
    var later := CallsOf(st0, rest, r, world);
    var st' := Visit(st, f, r, w, d).st;
    assert f in todo && Served(st.tab[f], f in r, d) == Served(st0.tab[f], f in r, d);
    assert CallsOf(st0, todo, r, world) == Served(st0.tab[f], f in r, d) + later;
    VisitMendsOwn(st, f, r, w, d, later);
    forall g | g in st.tab && g != f
      ensures g in st'.tab && (Mended(st', g, later) <==> Mended(st, g, CallsOf(st0, todo, r, world)))
    {
      VisitMends(st, f, r, w, d, g, later);
    }
    forall g | g in st'.tab && g !in st.tab ensures Mended(st', g, later) {
      VisitAgrees(st, f, r, w, d, g);
      AgreesIsMended(st', g, later);
    }
    FirstApart(todo);
  }

  lemma FirstApart(todo: seq<nat>)
    requires todo != [] && NoDup(todo)
    ensures todo[0] !in todo[1..] && forall g :: g in todo <==> g == todo[0] || g in todo[1..]
  {
    assert todo == [todo[0]] + todo[1..];
  }

  /** Exactly when a poll that gets through keeps the status words true to the
      descriptor sets: when every failed recv in it is answered, by a close or, for
      a socket that never wrote, by reading again, in its own callback or a later
      one of the same poll. */
  lemma PollAgreesExactly(st: State, sel: Select, world: World)
    requires Inv(st) && Room(st, {}) && st.inLoop && AllAgree(st) && sel.Ready? && Poll(st, sel, world).Ok?
    ensures AllAgree(Poll(st, sel, world).st) <==> AllRepaired(st, st.order, sel.r, world, [])
  {
    hide Inv, Room, Sweep, Agrees, AllRepaired, Dispatching;
    ReadyParts(st, sel);
    PollSkipsNobody(st, sel, world);
    forall f ensures !Writes([], f) {
      NoWrites(f);
    }
    SweepAgreesExactly(st, st, st.order, sel.r, sel.w, world, []);
    assert OthersMended(st, st.order, CallsOf(st, st.order, sel.r, world));
  }
}
