/** What the calls made inside a callback can and cannot do to the sockets the
    loop is walking over. Inside the loop a close only marks, so nothing leaves
    the list; new sockets go to the front. */
module Callbacks {
  import opened Basics
  import opened ByteQueue
  import opened Sockets
  import opened LoopInvariant

  datatype Mode = Reading | Stopped | Closed

  function ModeOf(s: Sock): Mode {
    if Eof in s.flags then Closed else if ReadEnable in s.flags then Reading else Stopped
  }

  function NextMode(m: Mode, a: Action, f: nat): Mode {
    match a
    case Close(g) => if g == f then Closed else m
    case ReadStop(g) => if g == f then Stopped else m
    case ReadStart(g) => if g == f then Reading else m
    case _ => m
  }

  /** Where a list of calls leaves socket `f`, judged from the calls alone. */
  function Fate(m: Mode, acts: seq<Action>, f: nat): Mode
    decreases |acts|
  {
    if acts == [] then m else Fate(NextMode(m, acts[0], f), acts[1..], f)
  }

  lemma {:induction false} FateSplits(m: Mode, past: seq<Action>, more: seq<Action>, f: nat)
    ensures Fate(m, past + more, f) == Fate(Fate(m, past, f), more, f)
    decreases |past|
  {
    if past == [] {
      assert past + more == more;
    } else {
      assert (past + more)[1..] == past[1..] + more;
      FateSplits(NextMode(m, past[0], f), past[1..], more, f);
    }
  }

  /** The list only grew at its front. */
  ghost predicate Prepended(st: State, st': State) {
    && |st.order| <= |st'.order|
    && st'.order[|st'.order| - |st.order|..] == st.order
  }

  /** One socket before and after some calls, all made inside the loop. */
  ghost predicate Tracked(s: Sock, s': Sock, m: Mode) {
    && s'.kind == s.kind && s'.port == s.port && s'.rbuf == s.rbuf
    && s'.tick == s.tick && s'.stall == s.stall
    && ModeOf(s') == m
    && (WriteEnable in s.flags ==> WriteEnable in s'.flags)
    && (s.wbuf.Some? ==> s'.wbuf.Some?)
    && (WriteEnable !in s.flags && s.wbuf.Some? ==> WriteEnable !in s'.flags)
  }

  /** The descriptors a call puts on the list. */
  function Added(a: Action): seq<nat> {
    match a
    case Connect(sys) => if sys.Some? then [sys.value.fd] else []
    case Listen(sys) => if sys.Some? then [sys.value.fd] else []
    case Accept(_, heapOk, sys) => if heapOk && sys.Some? then [sys.value.fd] else []
    case _ => []
  }

  lemma PrependedBy(news: seq<nat>, st: State, st': State)
    requires st'.order == news + st.order
    ensures Prepended(st, st')
  {
  }

  lemma ApplyAdds(st: State, a: Action)
    requires st.inLoop && Apply(st, a).Ok?
    ensures Apply(st, a).st.inLoop && Apply(st, a).st.order == Added(a) + st.order
  {
    hide FinalClose, SharesPort, PutWrite, Status.OneMore, Status.OneLess;
    assert [] + st.order == st.order;
  }

  lemma ApplyPrepends(st: State, a: Action)
    requires st.inLoop && Apply(st, a).Ok?
    ensures Apply(st, a).st.inLoop && Prepended(st, Apply(st, a).st)
  {
    hide Apply, Prepended, Added;
    ApplyAdds(st, a);
    PrependedBy(Added(a), st, Apply(st, a).st);
  }

  lemma ApplyTracks(st: State, a: Action, f: nat)
    requires st.inLoop && f in st.tab && Apply(st, a).Ok?
    ensures f in Apply(st, a).st.tab
    ensures Tracked(st.tab[f], Apply(st, a).st.tab[f], NextMode(ModeOf(st.tab[f]), a, f))
  {
    hide FinalClose, SharesPort, Status.OneMore, Status.OneLess, Queue.Write, Queue.Accepted, Queue.Valid;
    match a
    case Connect(sys) =>
    case Listen(sys) =>
    case Accept(_, heapOk, sys) =>
    case ReadStart(g) =>
    case ReadStop(g) =>
    case Write(g, _, _, _) =>
    case Close(g) =>
  }

  lemma TrackedTwice(s: Sock, t: Sock, u: Sock, m: Mode, n: Mode)
    requires Tracked(s, t, m) && Tracked(t, u, n)
    ensures Tracked(s, u, n)
  {
  }

  /** Callbacks never stop the loop's own code, and they keep every socket in
      the list, in its place, with its read buffer; what becomes of its flags
      can be read off the calls. */
  lemma {:induction false} CallsTrack(st: State, acts: seq<Action>, f: nat)
    requires st.inLoop && f in st.tab && Calls(st, acts).Ok?
    ensures f in Calls(st, acts).st.tab
    ensures Tracked(st.tab[f], Calls(st, acts).st.tab[f], Fate(ModeOf(st.tab[f]), acts, f))
    decreases |acts|
  {
    if acts == [] {
    } else {
      ApplyPrepends(st, acts[0]);
      ApplyTracks(st, acts[0], f);
      var st1 := Apply(st, acts[0]).st;
      CallsTrack(st1, acts[1..], f);
      TrackedTwice(st.tab[f], st1.tab[f], Calls(st1, acts[1..]).st.tab[f],
                   NextMode(ModeOf(st.tab[f]), acts[0], f), Fate(ModeOf(st.tab[f]), acts, f));
    }
  }

  lemma {:induction false} CallsPrepend(st: State, acts: seq<Action>)
    requires st.inLoop && Calls(st, acts).Ok?
    ensures Calls(st, acts).st.inLoop && Prepended(st, Calls(st, acts).st)
    decreases |acts|
  {
    if acts == [] {
    } else {
      ApplyPrepends(st, acts[0]);
      var st1 := Apply(st, acts[0]).st;
      CallsPrepend(st1, acts[1..]);
      PrependedTwice(st, st1, Calls(st1, acts[1..]).st);
    }
  }

  lemma PrependedTwice(a: State, b: State, c: State)
    requires Prepended(a, b) && Prepended(b, c)
    ensures Prepended(a, c)
  {
    assert c.order[|c.order| - |a.order|..] == c.order[|c.order| - |b.order|..][|b.order| - |a.order|..];
  }

  lemma {:induction false} CallsNeverLoopStop(st: State, acts: seq<Action>)
    requires st.inLoop
    ensures !Calls(st, acts).LoopStop?
    decreases |acts|
  {
    if acts == [] {
    } else if Apply(st, acts[0]).Ok? {
      CallsNeverLoopStop(Apply(st, acts[0]).st, acts[1..]);
    }
  }

  // ------------------------------------------------------------------
  // Flags against descriptor sets
  // ------------------------------------------------------------------

  /** The read (write) flag of an open socket tells whether its descriptor is in
      the read (write) set; and there is a write buffer exactly when writing. */
  ghost predicate ReadAgrees(st: State, f: nat) {
    IsOpen(st, f) ==> (f in st.fdsRead <==> ReadEnable in st.tab[f].flags)
  }

  ghost predicate WriteAgrees(st: State, f: nat) {
    IsOpen(st, f) ==>
      && (f in st.fdsWrite <==> WriteEnable in st.tab[f].flags)
      && (st.tab[f].wbuf.Some? <==> WriteEnable in st.tab[f].flags)
  }

  ghost predicate Agrees(st: State, f: nat) {
    ReadAgrees(st, f) && WriteAgrees(st, f)
  }

  ghost predicate AllAgree(st: State) {
    forall f :: f in st.tab ==> Agrees(st, f)
  }

  lemma SetsRegistered(st: State)
    requires SocketsInv(st)
    ensures st.fdsRead <= st.tab.Keys && st.fdsWrite <= st.tab.Keys
  {
  }

  lemma ApplyReadAgrees(st: State, a: Action, f: nat)
    requires SocketsInv(st) && (st.inLoop || !a.Close?) && Apply(st, a).Ok?
    ensures f in st.tab && ReadAgrees(st, f) ==> ReadAgrees(Apply(st, a).st, f)
    ensures f !in st.tab ==> ReadAgrees(Apply(st, a).st, f)
  {
    hide FinalClose, SharesPort, Status.OneMore, Status.OneLess, Queue.Write, Queue.Accepted, Queue.Valid, SocketsInv;
    SetsRegistered(st);
    match a
    case Connect(sys) =>
    case Listen(sys) =>
    case Accept(_, heapOk, sys) =>
    case ReadStart(g) =>
    case ReadStop(g) =>
    case Write(g, _, _, _) =>
    case Close(g) =>
  }

  lemma ApplyWriteAgrees(st: State, a: Action, f: nat)
    requires SocketsInv(st) && (st.inLoop || !a.Close?) && Apply(st, a).Ok?
    ensures f in st.tab && WriteAgrees(st, f) ==> WriteAgrees(Apply(st, a).st, f)
    ensures f !in st.tab ==> WriteAgrees(Apply(st, a).st, f)
  {
    hide FinalClose, SharesPort, Status.OneMore, Status.OneLess, Queue.Write, Queue.Accepted, Queue.Valid, SocketsInv;
    SetsRegistered(st);
    match a
    case Connect(sys) =>
    case Listen(sys) =>
    case Accept(_, heapOk, sys) =>
    case ReadStart(g) =>
    case ReadStop(g) =>
    case Write(g, _, _, _) =>
    case Close(g) =>
  }

  lemma {:induction false} CallsAgree(st: State, acts: seq<Action>, f: nat)
    requires Inv(st) && st.inLoop && Calls(st, acts).Ok?
    ensures f in st.tab && ReadAgrees(st, f) ==> ReadAgrees(Calls(st, acts).st, f)
    ensures f in st.tab && WriteAgrees(st, f) ==> WriteAgrees(Calls(st, acts).st, f)
    ensures f !in st.tab ==> Agrees(Calls(st, acts).st, f)
    decreases |acts|
  {
    if acts == [] {
    } else {
      ApplyInv(st, acts[0]);
      ApplyReadAgrees(st, acts[0], f);
      ApplyWriteAgrees(st, acts[0], f);
      ApplyPrepends(st, acts[0]);
      CallsAgree(Apply(st, acts[0]).st, acts[1..], f);
    }
  }

  /** A socket that lost its read flag while selected for reading. */
  ghost predicate LostRead(st: State, f: nat) {
    IsOpen(st, f) && f in st.fdsRead && ReadEnable !in st.tab[f].flags
  }

  /** A socket that lost its write flag while it had a write buffer. */
  ghost predicate LostWrite(st: State, f: nat) {
    IsOpen(st, f) && st.tab[f].wbuf.Some? && WriteEnable !in st.tab[f].flags
  }

  lemma ApplyLostRead(st: State, a: Action, f: nat)
    requires SocketsInv(st) && st.inLoop && Apply(st, a).Ok? && LostRead(st, f)
    ensures f in Apply(st, a).st.tab
    ensures if a == Close(f) || a == ReadStart(f) then ReadAgrees(Apply(st, a).st, f)
            else LostRead(Apply(st, a).st, f)
  {
    hide FinalClose, SharesPort, Status.OneMore, Status.OneLess, Queue.Write, Queue.Accepted, Queue.Valid, SocketsInv;
    SetsRegistered(st);
    match a
    case Connect(sys) =>
    case Listen(sys) =>
    case Accept(_, heapOk, sys) =>
    case ReadStart(g) =>
    case ReadStop(g) =>
    case Write(g, _, _, _) =>
    case Close(g) =>
  }

  lemma ApplyLostWrite(st: State, a: Action, f: nat)
    requires SocketsInv(st) && st.inLoop && Apply(st, a).Ok? && LostWrite(st, f)
    ensures f in Apply(st, a).st.tab
    ensures if a == Close(f) then WriteAgrees(Apply(st, a).st, f) else LostWrite(Apply(st, a).st, f)
  {
    hide FinalClose, SharesPort, Status.OneMore, Status.OneLess, Queue.Write, Queue.Accepted, Queue.Valid, SocketsInv;
    SetsRegistered(st);
    match a
    case Connect(sys) =>
    case Listen(sys) =>
    case Accept(_, heapOk, sys) =>
    case ReadStart(g) =>
    case ReadStop(g) =>
    case Write(g, _, _, _) =>
    case Close(g) =>
  }

  /** The first call of a non-empty list, and what it does to a socket that
      lost a flag. */
  lemma FirstCall(st: State, acts: seq<Action>, f: nat) returns (st1: State)
    requires Inv(st) && st.inLoop && Calls(st, acts).Ok? && acts != []
    ensures Inv(st1) && st1.inLoop && Calls(st1, acts[1..]) == Calls(st, acts)
    ensures LostRead(st, f) ==>
              if acts[0] == Close(f) || acts[0] == ReadStart(f) then f in st1.tab && ReadAgrees(st1, f)
              else LostRead(st1, f)
    ensures LostWrite(st, f) ==>
              if acts[0] == Close(f) then f in st1.tab && WriteAgrees(st1, f) else LostWrite(st1, f)
  {
    hide Inv, LostRead, LostWrite, ReadAgrees, WriteAgrees, Apply;
    st1 := Apply(st, acts[0]).st;
    ApplyInv(st, acts[0]);
    InvParts(st);
    if LostRead(st, f) {
      ApplyLostRead(st, acts[0], f);
    }
    if LostWrite(st, f) {
      ApplyLostWrite(st, acts[0], f);
    }
    ApplyPrepends(st, acts[0]);
  }

  lemma InvParts(st: State)
    requires Inv(st)
    ensures Shape(st) && SocketsInv(st) && Watermarks(st) && Counters(st)
  {
  }

  lemma LostDisagrees(st: State, f: nat)
    ensures LostRead(st, f) ==> !ReadAgrees(st, f)
    ensures LostWrite(st, f) ==> !WriteAgrees(st, f) && f in st.tab
  {
  }

  /** Only closing or starting to read again repairs a lost read flag. */
  lemma {:induction false} CallsRepairRead(st: State, acts: seq<Action>, f: nat)
    requires Inv(st) && st.inLoop && Calls(st, acts).Ok? && LostRead(st, f)
    ensures ReadAgrees(Calls(st, acts).st, f) <==> Close(f) in acts || ReadStart(f) in acts
    decreases |acts|
  {
    if acts == [] {
    } else {
      var st1 := FirstCall(st, acts, f);
      if acts[0] == Close(f) || acts[0] == ReadStart(f) {
        CallsAgree(st1, acts[1..], f);
      } else {
        assert acts == [acts[0]] + acts[1..];
        CallsRepairRead(st1, acts[1..], f);
      }
    }
  }

  /** Only closing repairs a lost write flag, because zsocket_write refuses to
      touch the socket. */
  lemma {:induction false} CallsRepairWrite(st: State, acts: seq<Action>, f: nat)
    requires Inv(st) && st.inLoop && Calls(st, acts).Ok? && LostWrite(st, f)
    ensures WriteAgrees(Calls(st, acts).st, f) <==> Close(f) in acts
    decreases |acts|
  {
    hide Inv, Apply, LostWrite, WriteAgrees;
    LostDisagrees(st, f);
    if acts == [] {
    } else {
      var st1 := FirstCall(st, acts, f);
      if acts[0] == Close(f) {
        CallsAgree(st1, acts[1..], f);
      } else {
        assert acts == [acts[0]] + acts[1..];
        CallsRepairWrite(st1, acts[1..], f);
      }
    }
  }

  // ------------------------------------------------------------------
  // Which calls the library accepts
  // ------------------------------------------------------------------

  /** A write buffer that was never needed, one that is written to, and one whose
      socket lost its write flag. */
  datatype Writing = NoBuffer | Buffered | Lost

  /** What a caller has to know about a socket to use it correctly. */
  datatype Entry = Entry(kind: Kind, mode: Mode, writing: Writing)

  function EntryOf(s: Sock): Entry {
    Entry(s.kind, ModeOf(s), if s.wbuf.None? then NoBuffer else if WriteEnable in s.flags then Buffered else Lost)
  }

  function Ledger(st: State): map<nat, Entry> {
    map f | f in st.tab :: EntryOf(st.tab[f])
  }

  predicate Accepts(l: map<nat, Entry>, a: Action) {
    match a
    case Connect(sys) => sys.Some? ==> sys.value.fd !in l
    case Listen(sys) => sys.Some? ==> sys.value.fd !in l
    case Accept(server, heapOk, sys) =>
      && server in l && l[server].mode != Closed
      && (heapOk ==> sys.Some? && l[server].kind == Server && sys.value.fd !in l)
    case ReadStart(f) => f in l && l[f].mode == Stopped
    case ReadStop(f) => f in l && l[f].mode == Reading
    case Write(f, _, _, _) => f in l && l[f].mode != Closed && l[f].writing != Lost
    case Close(f) => f in l && l[f].mode != Closed
  }

  function Noted(l: map<nat, Entry>, a: Action): map<nat, Entry>
    requires Accepts(l, a)
  {
    match a
    case Connect(sys) => if sys.Some? then l[sys.value.fd := Entry(Client, Stopped, NoBuffer)] else l
    case Listen(sys) => if sys.Some? then l[sys.value.fd := Entry(Server, Reading, NoBuffer)] else l
    case Accept(_, heapOk, sys) => if heapOk then l[sys.value.fd := Entry(Connection, Stopped, NoBuffer)] else l
    case ReadStart(f) => l[f := l[f].(mode := Reading)]
    case ReadStop(f) => l[f := l[f].(mode := Stopped)]
    case Write(f, _, allocOk, _) =>
      if l[f].writing == NoBuffer && allocOk then l[f := l[f].(writing := Buffered)] else l
    case Close(f) => l[f := l[f].(mode := Closed)]
  }

  predicate AcceptsAll(l: map<nat, Entry>, acts: seq<Action>)
    decreases |acts|
  {
    acts != [] ==> Accepts(l, acts[0]) && AcceptsAll(Noted(l, acts[0]), acts[1..])
  }

  lemma WriteState(st: State, f: nat)
    requires Inv(st) && f in st.tab
    ensures st.tab[f].wbuf.Some? ==> st.tab[f].wbuf.value.Valid()
    ensures Eof !in st.tab[f].flags && WriteEnable in st.tab[f].flags ==> st.tab[f].wbuf.Some?
  {
    assert SockInv(st.tab[f]) && FdInv(st.tab[f], f in st.fdsRead, f in st.fdsWrite);
  }

  lemma ApplyAccepts(st: State, a: Action)
    requires Inv(st) && st.inLoop
    ensures Apply(st, a).Ok? <==> Accepts(Ledger(st), a)
  {
    hide Inv, FinalClose, SharesPort, Queue.Write, Queue.Accepted, Queue.Valid;
    match a
    case Connect(sys) =>
    case Listen(sys) =>
    case Accept(_, heapOk, sys) =>
    case ReadStart(f) =>
    case ReadStop(f) =>
    case Write(f, _, _, _) =>
      EmptyIsValid();
      if f in st.tab {
        WriteState(st, f);
      }
    case Close(f) =>
  }

  lemma EmptyIsValid()
    ensures Empty(WRITE_BUF_SIZE).Valid()
  {
  }

  /** One socket changed or added is one entry changed or added. */
  lemma LedgerWith(st: State, st': State, f: nat, s: Sock)
    requires st'.tab == st.tab[f := s]
    ensures Ledger(st') == Ledger(st)[f := EntryOf(s)]
  {
  }

  lemma ApplyNoted(st: State, a: Action)
    requires Inv(st) && st.inLoop && Apply(st, a).Ok? && Accepts(Ledger(st), a)
    ensures Ledger(Apply(st, a).st) == Noted(Ledger(st), a)
  {
    hide Inv, FinalClose, SharesPort;
    var st' := Apply(st, a).st;
    match a
    case Connect(sys) => if sys.Some? { LedgerWith(st, st', sys.value.fd, st'.tab[sys.value.fd]); }
    case Listen(sys) =>
      if sys.Some? {
        assert {} + {ReadEnable} == {ReadEnable};
        LedgerWith(st, st', sys.value.fd, st'.tab[sys.value.fd]);
      }
    case Accept(_, heapOk, sys) => if heapOk { LedgerWith(st, st', sys.value.fd, st'.tab[sys.value.fd]); }
    case ReadStart(f) => LedgerWith(st, st', f, st'.tab[f]);
    case ReadStop(f) => LedgerWith(st, st', f, st'.tab[f]);
    case Write(f, bytes, allocOk, growOk) => WriteNoted(st, f, bytes, allocOk, growOk);
    case Close(f) => LedgerWith(st, st', f, st'.tab[f]);
  }

  lemma WriteIs(st: State, f: nat, bytes: seq<byte>, allocOk: bool, growOk: bool)
    requires Apply(st, Write(f, bytes, allocOk, growOk)).Ok?
    ensures f in st.tab
    ensures var st' := Apply(st, Write(f, bytes, allocOk, growOk)).st;
      if WriteEnable in st.tab[f].flags || allocOk then
        && f in st'.tab && st'.tab == st.tab[f := st'.tab[f]]
        && st'.tab[f].kind == st.tab[f].kind && ModeOf(st'.tab[f]) == ModeOf(st.tab[f])
        && st'.tab[f].wbuf.Some? && WriteEnable in st'.tab[f].flags
      else st' == st
  {
    hide Queue.Write, Queue.Accepted, Queue.Valid;
  }

  lemma WriteNoted(st: State, f: nat, bytes: seq<byte>, allocOk: bool, growOk: bool)
    requires Inv(st) && Apply(st, Write(f, bytes, allocOk, growOk)).Ok?
    requires Accepts(Ledger(st), Write(f, bytes, allocOk, growOk))
    ensures Ledger(Apply(st, Write(f, bytes, allocOk, growOk)).st) ==
            Noted(Ledger(st), Write(f, bytes, allocOk, growOk))
  {
    hide Inv, Apply;
    WriteState(st, f);
    WriteIs(st, f, bytes, allocOk, growOk);
    var st' := Apply(st, Write(f, bytes, allocOk, growOk)).st;
    if WriteEnable in st.tab[f].flags || allocOk {
      LedgerWith(st, st', f, st'.tab[f]);
    }
  }

  /** Exactly which calls a callback may make: whether the library accepts them
      can be followed from a few facts about each socket, call by call. */
  lemma {:induction false} CallsAcceptedExactly(st: State, acts: seq<Action>)
    requires Inv(st) && st.inLoop
    ensures Calls(st, acts).Ok? <==> AcceptsAll(Ledger(st), acts)
    decreases |acts|
  {
    hide Inv, Apply, Accepts, Ledger, Noted;
    if acts == [] {
    } else {
      ApplyAccepts(st, acts[0]);
      if Apply(st, acts[0]).Ok? {
        ApplyNoted(st, acts[0]);
        ApplyInv(st, acts[0]);
        ApplyPrepends(st, acts[0]);
        CallsAcceptedExactly(Apply(st, acts[0]).st, acts[1..]);
      }
    }
  }
}
