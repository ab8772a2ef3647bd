/** The closing pass: what it removes, what a server takes with it, and exactly
    when the assertion in zsocket_close fails under it. */
module Closing {
  import opened Basics
  import opened Sockets
  import opened LoopInvariant

  // ------------------------------------------------------------------
  // One cascade
  // ------------------------------------------------------------------

  /** The socket after a close that only marked it. */
  function Marked(s: Sock): Sock {
    s.(flags := s.flags + {Eof})
  }

  /** The cascade over `todo` stops exactly at a socket of that port closed
      before; otherwise it marks the sockets of that port and nothing else. */
  lemma {:induction false} CascadeExact(st: State, todo: seq<nat>, port: int)
    requires NoDup(todo) && forall f :: f in todo ==> f in st.tab
    ensures Cascade(st, todo, port).Ok? <==>
            forall f :: f in todo && st.tab[f].port == port ==> Eof !in st.tab[f].flags
    ensures Cascade(st, todo, port).Ok? ==>
              var st' := Cascade(st, todo, port).st;
              && st'.order == st.order && st'.inLoop == st.inLoop && st'.tab.Keys == st.tab.Keys
              && (forall f :: f in st.tab ==>
                    st'.tab[f] == if f in todo && st.tab[f].port == port then Marked(st.tab[f]) else st.tab[f])
    ensures !Cascade(st, todo, port).ApiStop?
    decreases |todo|
  {
    if todo == [] {
    } else {
      var f := todo[0];
      assert todo == [f] + todo[1..];
      assert f !in todo[1..];
      if st.tab[f].port != port {
        CascadeExact(st, todo[1..], port);
      } else if Eof !in st.tab[f].flags {
        CascadeExact(MarkClosed(st, f), todo[1..], port);
      }
    }
  }

  /** Finalising socket `f`, closed before, inside the loop. */
  lemma FinalCloseExact(st: State, f: nat)
    requires Shape(st) && st.inLoop && f in st.tab && Eof in st.tab[f].flags
    ensures var s := st.tab[f]; var c := FinalClose(st, f);
      && !c.ApiStop?
      && (c.Ok? <==> (s.kind.Server? ==>
            forall g :: g in st.tab && g != f && st.tab[g].port == s.port ==> Eof !in st.tab[g].flags))
      && (c.Ok? ==>
            && c.st.inLoop && c.st.order == Filter(st.order, g => g != f)
            && c.st.tab.Keys == st.tab.Keys - {f}
            && (forall g :: g in c.st.tab ==>
                  c.st.tab[g] == if s.kind.Server? && st.tab[g].port == s.port then Marked(st.tab[g]) else st.tab[g]))
  {
    FilterMembers(st.order, g => g != f);
    var st' := Unlink(st, f);
    CascadeExact(st', st'.order, st.tab[f].port);
  }

  /** Outside the loop, closing an open server is safe exactly when no other
      registered socket uses its port; any other socket can always be closed. */
  lemma CloseOutsideExactly(st: State, f: nat)
    requires Shape(st) && !st.inLoop && IsOpen(st, f)
    ensures Apply(st, Close(f)).Ok? <==>
            (st.tab[f].kind.Server? ==>
               forall g :: g in st.tab && g != f ==> st.tab[g].port != st.tab[f].port)
    ensures Apply(st, Close(f)).Ok? ==>
              var st' := Apply(st, Close(f)).st;
              st'.order == Filter(st.order, g => g != f) && st'.tab == st.tab - {f}
  {
    hide Cascade, SharesPort;
    SharersAfterUnlink(st, MarkClosed(st, f), f);
    assert Unlink(MarkClosed(st, f), f).tab == st.tab - {f};
  }

  /** Once `f` is off the list, the port has a user iff it had another one. */
  lemma SharersAfterUnlink(st: State, st1: State, f: nat)
    requires Shape(st) && f in st.tab && f in st1.tab
    requires st1.order == st.order && st1.tab == st.tab[f := st1.tab[f]]
    ensures SharesPort(Unlink(st1, f), st.tab[f].port) <==>
            exists g :: g in st.tab && g != f && st.tab[g].port == st.tab[f].port
  {
    FilterMembers(st.order, g => g != f);
    var st' := Unlink(st1, f);
    assert forall g :: g in st'.order <==> g in st.order && g != f;
    assert forall g :: g in st.tab && g != f ==> g in st'.tab && st'.tab[g] == st.tab[g];
  }

  // ------------------------------------------------------------------
  // One visit of the pass
  // ------------------------------------------------------------------

  /** What the pass removes: sockets closed before and connections that stalled. */
  predicate Doomed(s: Sock, now: int) {
    Eof in s.flags || Expired(s, now)
  }

  /** Removing one element from a duplicate-free list split around it. */
  lemma {:induction false} FilterOut(kept: seq<nat>, f: nat, rest: seq<nat>)
    requires NoDup(kept + [f] + rest)
    ensures Filter(kept + [f] + rest, g => g != f) == kept + rest
    decreases |kept|
  {
    var all := kept + [f] + rest;
    if kept == [] {
      assert all[0] == f && all[1..] == rest;
      assert f !in rest by {
        assert forall i :: 0 <= i < |rest| ==> all[i + 1] == rest[i];
      }
      FilterAll(rest, f);
    } else {
      assert all[0] == kept[0] && all[1..] == kept[1..] + [f] + rest;
      assert all[|kept|] == f;
      assert NoDup(all[1..]);
      FilterOut(kept[1..], f, rest);
      assert kept == [kept[0]] + kept[1..];
    }
  }

  lemma {:induction false} FilterAll(s: seq<nat>, f: nat)
    requires f !in s
    ensures Filter(s, g => g != f) == s
  {
    if s == [] {
    } else {
      FilterAll(s[1..], f);
    }
  }

  lemma UnlinkShape(st: State, f: nat)
    requires Shape(st)
    ensures Shape(Unlink(st, f))
  {
    FilterMembers(st.order, g => g != f);
  }

  /** The visit of one socket inside a pass that kept `kept` and has `rest`
      still to go. */
  lemma CloseVisitExact(st: State, kept: seq<nat>, f: nat, rest: seq<nat>, now: int)
    requires Shape(st) && st.inLoop && st.order == kept + [f] + rest && f in st.tab
    ensures var s := st.tab[f]; var c := CloseVisit(st, f, now);
      && !c.ApiStop?
      && (c.Ok? <==> (s.kind.Server? && Eof in s.flags ==>
            forall g :: g in st.tab && g != f && st.tab[g].port == s.port ==> Eof !in st.tab[g].flags))
      && var goes := Eof in s.flags || (s.kind.Connection? && now - s.tick > s.stall);
      && (c.Ok? && !goes ==> c.st == st)
      && (c.Ok? && goes ==>
            && c.st.inLoop && c.st.order == kept + rest && c.st.tab.Keys == st.tab.Keys - {f}
            && (forall g :: g in c.st.tab ==>
                  c.st.tab[g] == if s.kind.Server? && st.tab[g].port == s.port then Marked(st.tab[g]) else st.tab[g]))
  {
    var s := st.tab[f];
    FilterOut(kept, f, rest);
    if Expired(s, now) {
      FinalCloseExact(MaskAndClose(st, f, Timeout), f);
    } else if Eof in s.flags {
      FinalCloseExact(st, f);
    }
  }

  // ------------------------------------------------------------------
  // A whole pass: when it stops
  // ------------------------------------------------------------------

  /** The state of a pass midway: `kept` was visited and stays, `todo` is ahead. */
  ghost predicate Midway(st: State, kept: seq<nat>, todo: seq<nat>) {
    Shape(st) && st.inLoop && st.order == kept + todo
  }

  lemma MidwayMember(st: State, kept: seq<nat>, todo: seq<nat>)
    requires Midway(st, kept, todo) && todo != []
    ensures todo[0] in st.tab && todo[0] !in todo[1..] && todo[0] !in kept
    ensures st.order == kept + [todo[0]] + todo[1..]
    ensures forall g :: g in st.tab <==> g in kept || g == todo[0] || g in todo[1..]
  {
    assert st.order == kept + [todo[0]] + todo[1..];
    assert st.order[|kept|] == todo[0];
    assert forall i :: 0 <= i < |kept| ==> st.order[i] == kept[i];
    assert forall i :: 0 <= i < |todo| - 1 ==> st.order[|kept| + 1 + i] == todo[1..][i];
  }

  lemma MidwayStep(st: State, kept: seq<nat>, todo: seq<nat>, now: int)
    requires Midway(st, kept, todo) && todo != [] && todo[0] in st.tab
    requires CloseVisit(st, todo[0], now).Ok?
    ensures var f := todo[0]; var st' := CloseVisit(st, f, now).st;
      Midway(st', if Doomed(st.tab[f], now) then kept else kept + [f], todo[1..])
  {
    hide CloseVisit;
    var f, rest := todo[0], todo[1..];
    MidwayMember(st, kept, todo);
    CloseVisitExact(st, kept, f, rest, now);
    if Doomed(st.tab[f], now) {
      assert NoDup(kept + rest) by {
        FilterOut(kept, f, rest);
        FilterMembers(st.order, g => g != f);
      }
    } else {
      assert st.order == (kept + [f]) + rest;
    }
  }

  predicate ServerOn(st: State, f: nat, port: int) {
    f in st.tab && st.tab[f].kind.Server? && st.tab[f].port == port
  }

  predicate ClosedServer(st: State, f: nat) {
    f in st.tab && st.tab[f].kind.Server? && Eof in st.tab[f].flags
  }

  /** A socket among `s` on the port; one that was closed; one that stays. */
  predicate User(st: State, s: seq<nat>, port: int) {
    exists f :: f in s && f in st.tab && st.tab[f].port == port
  }

  predicate ClosedUser(st: State, s: seq<nat>, port: int) {
    exists f :: f in s && f in st.tab && st.tab[f].port == port && Eof in st.tab[f].flags
  }

  predicate StayingUser(st: State, s: seq<nat>, port: int, clock: Clock) {
    exists f :: f in s && f in st.tab && st.tab[f].port == port && !Doomed(st.tab[f], clock(f))
  }

  /** Behind place `i` a second server of the port, which the cascade of the
      first closes, so that its own cascade meets somebody closed: a socket
      behind it, or one in front that is still there. */
  ghost predicate Second(st: State, kept: seq<nat>, todo: seq<nat>, clock: Clock, i: nat, j: nat, port: int) {
    && i < j < |todo| && ServerOn(st, todo[j], port)
    && (User(st, kept, port) || StayingUser(st, todo[..i], port, clock) || User(st, todo[j + 1..], port))
  }

  /** What at place `i` is fatal: a closed server that has a closed socket of its
      port around, or a second server behind it. */
  ghost predicate Fatal(st: State, kept: seq<nat>, todo: seq<nat>, clock: Clock, i: nat) {
    && i < |todo| && ClosedServer(st, todo[i])
    && var port := st.tab[todo[i]].port;
      || ClosedUser(st, kept, port) || ClosedUser(st, todo[i + 1..], port)
      || SomeSecond(st, kept, todo, clock, i, port)
  }

  ghost predicate SomeSecond(st: State, kept: seq<nat>, todo: seq<nat>, clock: Clock, i: nat, port: int) {
    exists j :: Second(st, kept, todo, clock, i, j, port)
  }

  /** The first visit stops iff its socket is a closed server with a closed
      socket of its port around. */
  lemma FirstStops(st: State, kept: seq<nat>, todo: seq<nat>, clock: Clock, now: int)
    requires Midway(st, kept, todo) && todo != [] && todo[0] in st.tab
    ensures !CloseVisit(st, todo[0], now).ApiStop?
    ensures CloseVisit(st, todo[0], now).Ok? <==>
            var port := st.tab[todo[0]].port;
            !(ClosedServer(st, todo[0]) && (ClosedUser(st, kept, port) || ClosedUser(st, todo[1..], port)))
    ensures !CloseVisit(st, todo[0], now).Ok? ==> Fatal(st, kept, todo, clock, 0)
  {
    hide CloseVisit;
    MidwayMember(st, kept, todo);
    CloseVisitExact(st, kept, todo[0], todo[1..], now);
  }

  /** A first visit that goes through, and all that matters of it: a closed
      server marks everything on its port, no other socket touches others. */
  ghost predicate Visited(st: State, kept: seq<nat>, todo: seq<nat>, now: int, st1: State, kept1: seq<nat>) {
    && Midway(st, kept, todo) && todo != [] && todo[0] in st.tab && Midway(st1, kept1, todo[1..])
    && todo[0] !in todo[1..] && todo[0] !in kept
    && kept1 == (if Doomed(st.tab[todo[0]], now) then kept else kept + [todo[0]])
    && (forall g :: g in st1.tab <==> g in kept1 || g in todo[1..])
    && (forall g :: g in st1.tab ==>
          g in st.tab && st1.tab[g] ==
            if ClosedServer(st, todo[0]) && st.tab[g].port == st.tab[todo[0]].port then Marked(st.tab[g])
            else st.tab[g])
  }

  lemma VisitFirst(st: State, kept: seq<nat>, todo: seq<nat>, now: int) returns (st1: State, kept1: seq<nat>)
    requires Midway(st, kept, todo) && todo != [] && todo[0] in st.tab && CloseVisit(st, todo[0], now).Ok?
    ensures CloseVisit(st, todo[0], now) == Ok(st1) && Visited(st, kept, todo, now, st1, kept1)
  {
    hide CloseVisit;
    MidwayMember(st, kept, todo);
    CloseVisitExact(st, kept, todo[0], todo[1..], now);
    MidwayStep(st, kept, todo, now);
    st1 := CloseVisit(st, todo[0], now).st;
    kept1 := if Doomed(st.tab[todo[0]], now) then kept else kept + [todo[0]];
  }

  /** Users of another port than the one just closed are as they were. */
  lemma SameUsers(st: State, kept: seq<nat>, todo: seq<nat>, clock: Clock, st1: State, kept1: seq<nat>,
                  s: seq<nat>, port: int)
    requires todo != [] && Visited(st, kept, todo, clock(todo[0]), st1, kept1)
    requires ClosedServer(st, todo[0]) ==> st.tab[todo[0]].port != port
    requires forall g :: g in s ==> g in kept1 || g in todo[1..]
    ensures User(st1, s, port) <==> User(st, s, port)
    ensures ClosedUser(st1, s, port) <==> ClosedUser(st, s, port)
    ensures StayingUser(st1, s, port, clock) <==> StayingUser(st, s, port, clock)
  {
    assert forall g :: g in s ==> g in st1.tab && g in st.tab && st1.tab[g].port == st.tab[g].port;
    assert forall g :: g in s && st.tab[g].port == port ==> st1.tab[g] == st.tab[g];
  }

  /** A first socket that stays counts as kept from then on; one that goes counts
      no more. */
  lemma FirstCounts(st: State, kept: seq<nat>, todo: seq<nat>, clock: Clock, st1: State, kept1: seq<nat>, i: nat,
                    port: int)
    requires todo != [] && Visited(st, kept, todo, clock(todo[0]), st1, kept1) && 0 < i <= |todo|
    requires ClosedServer(st, todo[0]) ==> st.tab[todo[0]].port != port
    ensures ClosedUser(st1, kept1, port) <==> ClosedUser(st, kept, port)
    ensures User(st1, kept1, port) || StayingUser(st1, todo[1..][..i - 1], port, clock) <==>
            User(st, kept, port) || StayingUser(st, todo[..i], port, clock)
  {
    hide Midway, User, ClosedUser, StayingUser;
    var f, rest := todo[0], todo[1..];
    SameUsers(st, kept, todo, clock, st1, kept1, kept1, port);
    SameUsers(st, kept, todo, clock, st1, kept1, rest[..i - 1], port);
    assert todo[..i] == [f] + rest[..i - 1];
    OneMoreUser(st, kept, f, rest[..i - 1], port, clock);
  }

  lemma OneMoreUser(st: State, kept: seq<nat>, f: nat, ahead: seq<nat>, port: int, clock: Clock)
    requires f in st.tab
    ensures User(st, kept + [f], port) <==> User(st, kept, port) || st.tab[f].port == port
    ensures !Doomed(st.tab[f], clock(f)) ==> (ClosedUser(st, kept + [f], port) <==> ClosedUser(st, kept, port))
    ensures StayingUser(st, [f] + ahead, port, clock) <==>
            (st.tab[f].port == port && !Doomed(st.tab[f], clock(f))) || StayingUser(st, ahead, port, clock)
  {
    assert forall g :: g in kept + [f] <==> g in kept || g == f;
    assert forall g :: g in [f] + ahead <==> g == f || g in ahead;
  }

  /** A visit decides nothing about sockets of other ports. */
  lemma OtherPorts(st: State, kept: seq<nat>, todo: seq<nat>, clock: Clock, st1: State, kept1: seq<nat>, i: nat)
    requires todo != [] && Visited(st, kept, todo, clock(todo[0]), st1, kept1) && 0 < i < |todo| && todo[i] in st.tab
    requires ClosedServer(st, todo[0]) ==> st.tab[todo[0]].port != st.tab[todo[i]].port
    ensures Fatal(st1, kept1, todo[1..], clock, i - 1) <==> Fatal(st, kept, todo, clock, i)
  {
    hide Visited, User, ClosedUser, StayingUser, Midway;
    var rest, port := todo[1..], st.tab[todo[i]].port;
    assert rest[i - 1] == todo[i] && rest[i..] == todo[i + 1..];
    SameSocket(st, kept, todo, clock, st1, kept1, i, port);
    FirstCounts(st, kept, todo, clock, st1, kept1, i, port);
    SameUsers(st, kept, todo, clock, st1, kept1, todo[i + 1..], port);
    if ClosedServer(st, todo[i]) {
      forall j | i < j < |todo|
        ensures Second(st1, kept1, rest, clock, i - 1, j - 1, port) <==> Second(st, kept, todo, clock, i, j, port)
      {
        assert rest[j - 1] == todo[j] && rest[j..] == todo[j + 1..];
        SameSocket(st, kept, todo, clock, st1, kept1, j, port);
        SameUsers(st, kept, todo, clock, st1, kept1, todo[j + 1..], port);
      }
      ShiftSecond(st, kept, todo, clock, st1, kept1, i, port);
    }
  }

  lemma SameSocket(st: State, kept: seq<nat>, todo: seq<nat>, clock: Clock, st1: State, kept1: seq<nat>, j: nat,
                   port: int)
    requires todo != [] && Visited(st, kept, todo, clock(todo[0]), st1, kept1) && 0 < j < |todo|
    requires ClosedServer(st, todo[0]) ==> st.tab[todo[0]].port != port
    ensures todo[j] in st.tab && todo[j] in st1.tab && st1.tab[todo[j]].port == st.tab[todo[j]].port
    ensures st1.tab[todo[j]].kind == st.tab[todo[j]].kind
    ensures st.tab[todo[j]].port == port ==> st1.tab[todo[j]] == st.tab[todo[j]]
    ensures forall g :: g in todo[j + 1..] ==> g in todo[1..]
  {
    assert todo[j] == todo[1..][j - 1];
    assert todo[j + 1..] == todo[1..][j..];
  }

  lemma ShiftSecond(st: State, kept: seq<nat>, todo: seq<nat>, clock: Clock, st1: State, kept1: seq<nat>, i: nat,
                    port: int)
    requires todo != [] && 0 < i
    requires forall j :: i < j < |todo| ==>
               (Second(st1, kept1, todo[1..], clock, i - 1, j - 1, port) <==>
                 Second(st, kept, todo, clock, i, j, port))
    ensures SomeSecond(st1, kept1, todo[1..], clock, i - 1, port) <==> SomeSecond(st, kept, todo, clock, i, port)
  {
    hide ServerOn, User, StayingUser;
    var i' := i - 1;
    if j: nat :| Second(st1, kept1, todo[1..], clock, i', j, port) {
      assert Second(st1, kept1, todo[1..], clock, i - 1, (j + 1) - 1, port);
      assert Second(st, kept, todo, clock, i, j + 1, port);
    }
    if j: nat :| Second(st, kept, todo, clock, i, j, port) {
      assert Second(st1, kept1, todo[1..], clock, i - 1, j - 1, port);
    }
  }

  /** A closed server that got through has closed everything on its port: what is
      fatal afterwards is a second server, and that was fatal before. */
  lemma OwnPort(st: State, kept: seq<nat>, todo: seq<nat>, clock: Clock, st1: State, kept1: seq<nat>, i: nat)
    requires todo != [] && Visited(st, kept, todo, clock(todo[0]), st1, kept1) && 0 < i < |todo| && todo[i] in st.tab
    requires ClosedServer(st, todo[0]) && st.tab[todo[0]].port == st.tab[todo[i]].port
    ensures Fatal(st1, kept1, todo[1..], clock, i - 1) <==>
            Second(st, kept, todo, clock, 0, i, st.tab[todo[0]].port)
  {
    hide User, ClosedUser, StayingUser, Midway, SomeSecond;
    var rest, port := todo[1..], st.tab[todo[i]].port;
    assert rest[i - 1] == todo[i] && rest[i..] == todo[i + 1..];
    assert todo[..0] == [] && kept1 == kept && todo[i] in st1.tab;
    AllClosed(st, kept, todo, clock, st1, kept1, kept, port);
    AllClosed(st, kept, todo, clock, st1, kept1, rest[i..], port);
    AllClosed(st, kept, todo, clock, st1, kept1, rest[..i - 1], port);
    NobodyStays(st, port, clock);
    SecondHasCompany(st1, kept1, rest, clock, i - 1, port);
  }

  lemma NobodyStays(st: State, port: int, clock: Clock)
    ensures !StayingUser(st, [], port, clock)
  {
  }

  lemma SecondHasCompany(st: State, kept: seq<nat>, todo: seq<nat>, clock: Clock, i: nat, port: int)
    requires i < |todo| && !StayingUser(st, todo[..i], port, clock)
    ensures SomeSecond(st, kept, todo, clock, i, port) ==> User(st, kept, port) || User(st, todo[i + 1..], port)
  {
    if j: nat :| Second(st, kept, todo, clock, i, j, port) {
      assert todo[j] in todo[i + 1..] by {
        assert todo[i + 1..][j - i - 1] == todo[j];
      }
    }
  }

  lemma AllClosed(st: State, kept: seq<nat>, todo: seq<nat>, clock: Clock, st1: State, kept1: seq<nat>,
                  s: seq<nat>, port: int)
    requires todo != [] && Visited(st, kept, todo, clock(todo[0]), st1, kept1)
    requires ClosedServer(st, todo[0]) && st.tab[todo[0]].port == port
    requires forall g :: g in s ==> g in kept1 || g in todo[1..]
    ensures User(st1, s, port) <==> User(st, s, port)
    ensures ClosedUser(st1, s, port) <==> User(st, s, port)
    ensures !StayingUser(st1, s, port, clock)
  {
    assert forall g :: g in s ==> g in st1.tab && g in st.tab && st1.tab[g].port == st.tab[g].port;
    assert forall g :: g in s && st.tab[g].port == port ==> Eof in st1.tab[g].flags;
  }

  /** What is fatal after the first visit was fatal before, or makes the first
      socket fatal. */
  lemma FatalLater(st: State, kept: seq<nat>, todo: seq<nat>, clock: Clock, st1: State, kept1: seq<nat>, i: nat)
    requires todo != [] && Visited(st, kept, todo, clock(todo[0]), st1, kept1) && 0 < i < |todo| && todo[0] in st.tab
    requires ClosedServer(st, todo[0]) ==> !ClosedUser(st, todo[1..], st.tab[todo[0]].port)
    ensures Fatal(st1, kept1, todo[1..], clock, i - 1) <==>
            || Fatal(st, kept, todo, clock, i)
            || (ClosedServer(st, todo[0]) && Second(st, kept, todo, clock, 0, i, st.tab[todo[0]].port))
  {
    assert todo[i] == todo[1..][i - 1];
    if ClosedServer(st, todo[0]) && st.tab[todo[0]].port == st.tab[todo[i]].port {
      OwnPort(st, kept, todo, clock, st1, kept1, i);
    } else {
      OtherPorts(st, kept, todo, clock, st1, kept1, i);
    }
  }

  lemma HarmlessStep(st: State, kept: seq<nat>, todo: seq<nat>, clock: Clock, st1: State, kept1: seq<nat>)
    requires todo != [] && Visited(st, kept, todo, clock(todo[0]), st1, kept1) && todo[0] in st.tab
    requires ClosedServer(st, todo[0]) ==>
               !ClosedUser(st, kept, st.tab[todo[0]].port) && !ClosedUser(st, todo[1..], st.tab[todo[0]].port)
    ensures Harmless(st1, kept1, todo[1..], clock) <==> Harmless(st, kept, todo, clock)
  {
    var port := st.tab[todo[0]].port;
    forall i | 0 < i < |todo|
      ensures Fatal(st1, kept1, todo[1..], clock, i - 1) <==>
              || Fatal(st, kept, todo, clock, i)
              || (ClosedServer(st, todo[0]) && Second(st, kept, todo, clock, 0, i, port))
    {
      FatalLater(st, kept, todo, clock, st1, kept1, i);
    }
    FirstFatal(st, kept, todo, clock);
    hide Fatal, Visited, Second, ClosedServer;
    if Harmless(st1, kept1, todo[1..], clock) {
      forall i | 0 < i < |todo|
        ensures !Fatal(st, kept, todo, clock, i)
        ensures !(ClosedServer(st, todo[0]) && Second(st, kept, todo, clock, 0, i, port))
      {
        assert !Fatal(st1, kept1, todo[1..], clock, i - 1);
      }
    }
    if Harmless(st, kept, todo, clock) {
      forall i | 0 <= i < |todo| - 1 ensures !Fatal(st1, kept1, todo[1..], clock, i) {
        assert !Fatal(st, kept, todo, clock, 0) && !Fatal(st, kept, todo, clock, i + 1);
        assert Fatal(st1, kept1, todo[1..], clock, (i + 1) - 1) <==>
               || Fatal(st, kept, todo, clock, i + 1)
               || (ClosedServer(st, todo[0]) && Second(st, kept, todo, clock, 0, i + 1, port));
      }
    }
  }

  lemma FirstFatal(st: State, kept: seq<nat>, todo: seq<nat>, clock: Clock)
    requires todo != [] && todo[0] in st.tab
    requires ClosedServer(st, todo[0]) ==>
               !ClosedUser(st, kept, st.tab[todo[0]].port) && !ClosedUser(st, todo[1..], st.tab[todo[0]].port)
    ensures Fatal(st, kept, todo, clock, 0) <==>
            ClosedServer(st, todo[0]) &&
            exists j :: 0 < j < |todo| && Second(st, kept, todo, clock, 0, j, st.tab[todo[0]].port)
  {
    hide ClosedUser, ClosedServer;
  }

  ghost predicate Harmless(st: State, kept: seq<nat>, todo: seq<nat>, clock: Clock) {
    forall i :: 0 <= i < |todo| ==> !Fatal(st, kept, todo, clock, i)
  }

  /** Exactly when a pass runs into the assertion at zsocket.c:109: a closed
      server stands before a closed socket of its port, or before a second
      server of its port that in turn has company. */
  lemma {:induction false} PassStopsExactly(st: State, kept: seq<nat>, todo: seq<nat>, clock: Clock)
    requires Midway(st, kept, todo)
    ensures !ClosePass(st, todo, clock).ApiStop?
    ensures ClosePass(st, todo, clock).Ok? <==> Harmless(st, kept, todo, clock)
    decreases |todo|
  {
    hide CloseVisit, Fatal;
    if todo == [] {
    } else {
      var f, now := todo[0], clock(todo[0]);
      MidwayMember(st, kept, todo);
      FirstStops(st, kept, todo, clock, now);
      if CloseVisit(st, f, now).Ok? {
        var st1, kept1 := VisitFirst(st, kept, todo, now);
        PassStopsExactly(st1, kept1, todo[1..], clock);
        HarmlessStep(st, kept, todo, clock, st1, kept1);
      }
    }
  }

  // ------------------------------------------------------------------
  // A whole pass: what it leaves
  // ------------------------------------------------------------------

  /** A closed server of the port of `f`. */
  predicate ServerOf(st: State, g: nat, f: nat) {
    ClosedServer(st, g) && f in st.tab && st.tab[f].port == st.tab[g].port
  }

  /** Whether one stands in front of `f`. */
  predicate Behind(st: State, todo: seq<nat>, f: nat) {
    exists i, j :: 0 <= i < j < |todo| && todo[j] == f && ServerOf(st, todo[i], f)
  }

  /** Which sockets of `todo` stay, decided by their state before the pass. */
  function Remains(st: State, todo: seq<nat>, clock: Clock): nat -> bool {
    (f: nat) => f in st.tab && !Doomed(st.tab[f], clock(f)) && !Behind(st, todo, f)
  }

  /** Whether the pass finalises a server of this port. */
  ghost predicate ServerGoes(st: State, todo: seq<nat>, port: int) {
    exists g :: g in todo && ClosedServer(st, g) && st.tab[g].port == port
  }

  lemma GoesStep(st: State, kept: seq<nat>, todo: seq<nat>, now: int, st1: State, kept1: seq<nat>, port: int)
    requires todo != [] && Visited(st, kept, todo, now, st1, kept1)
    requires ClosedServer(st, todo[0]) ==> st.tab[todo[0]].port != port
    ensures ServerGoes(st, todo, port) <==> ServerGoes(st1, todo[1..], port)
  {
    hide Midway;
    var f, rest := todo[0], todo[1..];
    assert forall g :: g in todo <==> g == f || g in rest;
    forall g | g in rest
      ensures ClosedServer(st, g) && st.tab[g].port == port <==> ClosedServer(st1, g) && st1.tab[g].port == port
    {
      assert g in st1.tab;
    }
  }

  /** Nobody stands in front of the first socket; for the others, the first one
      matters exactly when it is a closed server of their port. */
  lemma BehindStep(st: State, kept: seq<nat>, todo: seq<nat>, now: int, st1: State, kept1: seq<nat>, f: nat)
    requires todo != [] && Visited(st, kept, todo, now, st1, kept1)
    ensures !Behind(st, todo, todo[0])
    ensures f in todo[1..] ==> f in st.tab
    ensures f in todo[1..] ==>
              if ClosedServer(st, todo[0]) && st.tab[f].port == st.tab[todo[0]].port then Behind(st, todo, f)
              else Behind(st, todo, f) <==> Behind(st1, todo[1..], f)
  {
    var rest := todo[1..];
    forall j | 0 < j < |todo| ensures todo[j] in rest {
      assert todo[j] == rest[j - 1];
    }
    if f in rest {
      var k :| 0 <= k < |rest| && rest[k] == f;
      assert todo[k + 1] == f;
      if !(ClosedServer(st, todo[0]) && st.tab[f].port == st.tab[todo[0]].port) {
        BehindRest(st, kept, todo, now, st1, kept1, f);
      }
    }
  }

  lemma BehindRest(st: State, kept: seq<nat>, todo: seq<nat>, now: int, st1: State, kept1: seq<nat>, f: nat)
    requires todo != [] && Visited(st, kept, todo, now, st1, kept1) && f in todo[1..] && f in st.tab
    requires !(ClosedServer(st, todo[0]) && st.tab[f].port == st.tab[todo[0]].port)
    ensures Behind(st, todo, f) <==> Behind(st1, todo[1..], f)
  {
    forall g | g in todo[1..] ensures ServerOf(st1, g, f) <==> ServerOf(st, g, f) {
      assert g in st1.tab && f in st1.tab;
    }
    hide Visited;
    BehindShift(st, st1, todo, f);
  }

  lemma BehindShift(st: State, st1: State, todo: seq<nat>, f: nat)
    requires todo != [] && !ServerOf(st, todo[0], f)
    requires forall g :: g in todo[1..] ==> (ServerOf(st1, g, f) <==> ServerOf(st, g, f))
    ensures Behind(st, todo, f) <==> Behind(st1, todo[1..], f)
  {
    var rest := todo[1..];
    hide ServerOf;
    if i, j :| 0 <= i < j < |todo| && todo[j] == f && ServerOf(st, todo[i], f) {
      assert rest[i - 1] == todo[i] && rest[j - 1] == f && rest[i - 1] in rest;
    }
    if i, j :| 0 <= i < j < |rest| && rest[j] == f && ServerOf(st1, rest[i], f) {
      assert todo[i + 1] == rest[i] && todo[j + 1] == f && rest[i] in rest;
    }
  }

  lemma RemainsStep(st: State, kept: seq<nat>, todo: seq<nat>, clock: Clock, st1: State, kept1: seq<nat>)
    requires todo != [] && Visited(st, kept, todo, clock(todo[0]), st1, kept1)
    ensures kept1 + Filter(todo[1..], Remains(st1, todo[1..], clock)) == kept + Filter(todo, Remains(st, todo, clock))
  {
    var f, rest := todo[0], todo[1..];
    forall g | g in rest ensures Remains(st1, rest, clock)(g) == Remains(st, todo, clock)(g) {
      BehindStep(st, kept, todo, clock(f), st1, kept1, g);
      assert g in st1.tab && g in st.tab;
    }
    FilterAgree(rest, Remains(st1, rest, clock), Remains(st, todo, clock));
    BehindStep(st, kept, todo, clock(f), st1, kept1, f);
    FilterFirst(kept, todo, Remains(st, todo, clock));
  }

  lemma FilterFirst(kept: seq<nat>, todo: seq<nat>, p: nat -> bool)
    requires todo != []
    ensures kept + Filter(todo, p) == (if p(todo[0]) then kept + [todo[0]] else kept) + Filter(todo[1..], p)
  {
    assert kept + ([todo[0]] + Filter(todo[1..], p)) == (kept + [todo[0]]) + Filter(todo[1..], p);
  }

  /** What one pass does, told from the state before it: it removes exactly the
      sockets that were closed, had stalled, or stand behind a closed server of
      their port; it keeps the others in order, and changes a remaining socket
      only by marking it when its server goes. */
  lemma {:induction false} PassResult(st: State, kept: seq<nat>, todo: seq<nat>, clock: Clock)
    requires Midway(st, kept, todo) && ClosePass(st, todo, clock).Ok?
    ensures var st' := ClosePass(st, todo, clock).st;
      && Midway(st', kept + Filter(todo, Remains(st, todo, clock)), [])
      && (forall g :: g in st'.tab ==> g in st.tab)
      && (forall g :: g in st'.tab ==>
            st'.tab[g] == if ServerGoes(st, todo, st.tab[g].port) then Marked(st.tab[g]) else st.tab[g])
    decreases |todo|
  {
    hide CloseVisit, Remains;
    if todo == [] {
      assert kept + [] == kept;
    } else {
      MidwayMember(st, kept, todo);
      var f, rest := todo[0], todo[1..];
      var st1, kept1 := VisitFirst(st, kept, todo, clock(f));
      PassResult(st1, kept1, rest, clock);
      RemainsStep(st, kept, todo, clock, st1, kept1);
      var st' := ClosePass(st, todo, clock).st;
      forall g | g in st'.tab
        ensures g in st.tab
        ensures st'.tab[g] == if ServerGoes(st, todo, st.tab[g].port) then Marked(st.tab[g]) else st.tab[g]
      {
        assert g in st1.tab;
        GoesFirst(st, kept, todo, clock(f), st1, kept1, g);
      }
    }
  }

  lemma GoesFirst(st: State, kept: seq<nat>, todo: seq<nat>, now: int, st1: State, kept1: seq<nat>, g: nat)
    requires todo != [] && Visited(st, kept, todo, now, st1, kept1) && g in st1.tab
    ensures g in st.tab && st1.tab[g].port == st.tab[g].port
    ensures (if ServerGoes(st1, todo[1..], st.tab[g].port) then Marked(st1.tab[g]) else st1.tab[g]) ==
            (if ServerGoes(st, todo, st.tab[g].port) then Marked(st.tab[g]) else st.tab[g])
  {
    if ClosedServer(st, todo[0]) && st.tab[todo[0]].port == st.tab[g].port {
      assert todo[0] in todo && ServerGoes(st, todo, st.tab[g].port);
      assert Marked(Marked(st.tab[g])) == Marked(st.tab[g]);
    } else {
      GoesStep(st, kept, todo, now, st1, kept1, st.tab[g].port);
    }
  }

  // ------------------------------------------------------------------
  // Servers behind their sockets
  // ------------------------------------------------------------------

  /** Every socket on a server's port stands before the server. Listening on an
      unused port and inserting at the head is enough to keep this. */
  ghost predicate ServersLast(st: State) {
    forall i, j :: 0 <= i < j < |st.order| && st.order[i] in st.tab && st.order[j] in st.tab
                   && st.tab[st.order[i]].kind.Server? ==>
      st.tab[st.order[j]].port != st.tab[st.order[i]].port
  }

  /** Which sockets stay when nobody stands behind a server of its port. */
  function Stays(st: State, clock: Clock): nat -> bool {
    (f: nat) => f in st.tab && !Doomed(st.tab[f], clock(f))
  }

  /** In this order nobody of a server's port stands behind it, so nothing is
      fatal and nobody goes along with a server. */
  lemma ServersLastImplies(st: State, clock: Clock)
    requires Shape(st) && ServersLast(st) && st.inLoop
    ensures Midway(st, [], st.order) && Harmless(st, [], st.order, clock)
    ensures forall f :: f in st.tab ==> !Behind(st, st.order, f)
  {
    assert [] + st.order == st.order;
    forall i | 0 <= i < |st.order| ensures !Fatal(st, [], st.order, clock, i) {
      if ClosedServer(st, st.order[i]) {
        NobodyBehind(st, i);
        NothingFatal(st, clock, i);
      }
    }
  }

  lemma NobodyBehind(st: State, i: nat)
    requires Shape(st) && ServersLast(st) && i < |st.order| && ServerOn(st, st.order[i], st.tab[st.order[i]].port)
    ensures forall j :: i < j < |st.order| ==> !ServerOn(st, st.order[j], st.tab[st.order[i]].port)
    ensures !ClosedUser(st, st.order[i + 1..], st.tab[st.order[i]].port)
  {
    forall g | g in st.order[i + 1..] ensures g in st.tab && st.tab[g].port != st.tab[st.order[i]].port {
      var k :| 0 <= k < |st.order[i + 1..]| && st.order[i + 1..][k] == g;
      assert st.order[i + 1 + k] == g;
    }
    forall j | i < j < |st.order| ensures !ServerOn(st, st.order[j], st.tab[st.order[i]].port) {
      assert st.order[j] in st.tab;
    }
  }

  lemma NothingFatal(st: State, clock: Clock, i: nat)
    requires i < |st.order| && ClosedServer(st, st.order[i])
    requires !ClosedUser(st, st.order[i + 1..], st.tab[st.order[i]].port)
    requires forall j :: i < j < |st.order| ==> !ServerOn(st, st.order[j], st.tab[st.order[i]].port)
    ensures !Fatal(st, [], st.order, clock, i)
  {
    hide User, StayingUser;
  }

  lemma SublistServersLast(st: State, st': State, kept: seq<nat>, f: nat, rest: seq<nat>)
    requires ServersLast(st) && st.order == kept + [f] + rest && st'.order == kept + rest
    requires forall g :: g in st'.tab ==>
               g in st.tab && st'.tab[g].port == st.tab[g].port && st'.tab[g].kind == st.tab[g].kind
    ensures ServersLast(st')
  {
    forall i, j | 0 <= i < j < |st'.order| && st'.order[i] in st'.tab && st'.order[j] in st'.tab
                  && st'.tab[st'.order[i]].kind.Server?
      ensures st'.tab[st'.order[j]].port != st'.tab[st'.order[i]].port
    {
      var i', j' := if i < |kept| then i else i + 1, if j < |kept| then j else j + 1;
      assert st.order[i'] == st'.order[i] && st.order[j'] == st'.order[j];
    }
  }

  /** The pass keeps that order. */
  lemma {:induction false} PassKeepsServersLast(st: State, kept: seq<nat>, todo: seq<nat>, clock: Clock)
    requires Midway(st, kept, todo) && ServersLast(st) && ClosePass(st, todo, clock).Ok?
    ensures ServersLast(ClosePass(st, todo, clock).st)
    decreases |todo|
  {
    hide CloseVisit, ServersLast;
    if todo == [] {
    } else {
      MidwayMember(st, kept, todo);
      var f := todo[0];
      var st1, kept1 := VisitFirst(st, kept, todo, clock(f));
      assert forall g :: g in st1.tab ==> st1.tab[g].port == st.tab[g].port && st1.tab[g].kind == st.tab[g].kind;
      if Doomed(st.tab[f], clock(f)) {
        SublistServersLast(st, st1, kept, f, todo[1..]);
      } else {
        NothingGone(st, st1, f, clock(f));
      }
      PassKeepsServersLast(st1, kept1, todo[1..], clock);
    }
  }

  lemma NothingGone(st: State, st1: State, f: nat, now: int)
    requires f in st.tab && !Doomed(st.tab[f], now) && CloseVisit(st, f, now) == Ok(st1) && ServersLast(st)
    ensures ServersLast(st1)
  {
  }
}
