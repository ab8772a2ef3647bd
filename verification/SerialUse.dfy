/** How serial ports are used over a run: exactly when closing one fails to
    close it or loses its descriptor, and what callers who close as often as they
    open may rely on. */
module SerialUse {
  import opened Basics
  import opened SerialRegistry

  // ------------------------------------------------------------------
  // What each call does
  // ------------------------------------------------------------------

  /** serial_new counts one more caller of a shared port, or puts a closed port with
      one caller in front. */
  lemma NewExactly(st: State, index: nat, line: Line, share: int)
    requires Inv(st) && (Find(st.mgrs, DevName(index)).Some? || KnownParity(line.parity))
    requires New(st, index, line, share).1.Some?
    ensures var st' := New(st, index, line, share).0;
      var h := Handle(DevName(index), line, share);
      && New(st, index, line, share).1.value == h && st'.handles == [h] + st.handles
      && st'.open == st.open && st'.leaked == st.leaked
      && match Find(st.mgrs, DevName(index)) {
           case Some(k) =>
             && |st'.mgrs| == |st.mgrs| && (forall i :: 0 <= i < |st.mgrs| && i != k ==> st'.mgrs[i] == st.mgrs[i])
             && st'.mgrs[k] == st.mgrs[k].(refcount := st.mgrs[k].refcount + 1)
           case None =>
             st'.mgrs == [Manager(DevName(index), line, share, false, None, 1, 0, false)] + st.mgrs
         }
  {
  }

  /** serial_open succeeds iff the port is in use, is still open, or the device lets
      itself be opened now. Success counts one opening more; a port that was open
      keeps its descriptor. Failure leaves the port closed and counts nothing. */
  lemma OpenExactly(st: State, device: string, sys: OpenAnswer)
    requires Inv(st)
    ensures Find(st.mgrs, device).None? ==> Open(st, device, sys) == Result(st, -1)
    ensures Find(st.mgrs, device).Some? ==>
              var k := Find(st.mgrs, device).value; var m := st.mgrs[k]; var r := Open(st, device, sys);
              && (r.rc == 0 <==> m.opencount > 0 || m.isOpen || sys.Opened?) && (r.rc == 0 || r.rc == -1)
              && k < |r.st.mgrs| && var m' := r.st.mgrs[k];
              && r.st == st.(mgrs := st.mgrs[k := m'], open := r.st.open)
              && m'.opencount == (if r.rc == 0 then m.opencount + 1 else m.opencount)
              && (m'.isOpen <==> r.rc == 0)
              && m'.fd == (if m.isOpen then m.fd else if sys.Opened? then Some(sys.fd) else None)
              && r.st.open == (if !m.isOpen && sys.Opened? then st.open + {sys.fd} else st.open)
              && m' == m.(opencount := m'.opencount, isOpen := m'.isOpen, fd := m'.fd, stuck := m'.stuck)
  {
    var k := Find(st.mgrs, device);
    if k.Some? {
      ManagerAt(st, k.value);
      OpenInUse(st, k.value);
    }
  }

  /** serial_close counts one opening less, down to none. The device is shut iff no
      opening is left, it was open and its line settings could be restored; the call
      fails iff none is left and the device was not shut. */
  lemma CloseCounts(st: State, device: string, restoreOk: bool)
    requires Inv(st)
    ensures Find(st.mgrs, device).None? ==> Close(st, device, restoreOk) == Result(st, -1)
    ensures Find(st.mgrs, device).Some? ==>
              var k := Find(st.mgrs, device).value; var m := st.mgrs[k]; var r := Close(st, device, restoreOk);
              var shut := m.opencount <= 1 && m.isOpen && restoreOk;
              && r.rc == (if m.opencount <= 1 && !shut then -1 else 0)
              && k < |r.st.mgrs| && var m' := r.st.mgrs[k];
              && r.st == st.(mgrs := st.mgrs[k := m'], open := r.st.open)
              && m'.opencount == Max(0, m.opencount - 1)
              && m'.isOpen == (m.isOpen && !shut) && m'.fd == (if shut then None else m.fd)
              && r.st.open == (if shut then st.open - Fds(m) else st.open)
              && m' == m.(opencount := m'.opencount, isOpen := m'.isOpen, fd := m'.fd, stuck := m'.stuck)
  {
    hide Inv, ManagerInv, Find, CloseManager, Fds;
    var k := Find(st.mgrs, device);
    if k.Some? {
      ManagerAt(st, k.value);
      OwnOpen(st, k.value);
      CloseManagerCounts(st.mgrs[k.value], restoreOk, st.handles);
      assert st.open - Fds(st.mgrs[k.value]) + Fds(st.mgrs[k.value]) == st.open;
    }
  }

  lemma CloseManagerCounts(m: Manager, restoreOk: bool, handles: seq<Handle>)
    requires ManagerInv(m, handles)
    ensures var shut := m.opencount <= 1 && m.isOpen && restoreOk; var (m', rc) := CloseManager(m, restoreOk);
      && rc == (if m.opencount <= 1 && !shut then -1 else 0)
      && m'.opencount == Max(0, m.opencount - 1)
      && m'.isOpen == (m.isOpen && !shut) && m'.fd == (if shut then None else m.fd)
      && Fds(m') == (if shut then {} else Fds(m))
      && m' == m.(opencount := m'.opencount, isOpen := m'.isOpen, fd := m'.fd, stuck := m'.stuck)
  {
  }

  lemma OwnOpen(st: State, k: nat)
    requires Inv(st) && k < |st.mgrs|
    ensures Fds(st.mgrs[k]) <= st.open && Fds(st.mgrs[k]) !! st.leaked
    ensures st.mgrs[k].isOpen <==> st.mgrs[k].fd.Some?
  {
    assert ManagerInv(st.mgrs[k], st.handles);
    hide ManagerInv, Fds;
  }

  /** serial_destory takes one handle away. While others are left only the reference
      count changes; with the last one the manager goes, and its descriptor is closed
      if its line settings can be restored. */
  lemma DestroyCounts(st: State, i: nat, restoreOk: bool)
    requires Inv(st) && i < |st.handles|
    ensures var st' := Destroy(st, i, restoreOk); var k := Find(st.mgrs, st.handles[i].device);
      && st'.handles == st.handles[..i] + st.handles[i + 1..]
      && k.Some? && var m := st.mgrs[k.value];
      && m.refcount == Count(st.handles, m.device)
      && if m.refcount > 1 then
           st' == st.(handles := st'.handles, mgrs := st.mgrs[k.value := m.(refcount := m.refcount - 1)])
         else
           && st'.mgrs == st.mgrs[..k.value] + st.mgrs[k.value + 1..]
           && st'.open == (if restoreOk then st.open - Fds(m) else st.open)
           && st'.leaked == (if restoreOk then st.leaked else st.leaked + Fds(m))
  {
    hide Inv, ManagerInv, Find, Fds;
    var k := HolderFound(st, i);
    ManagerAt(st, k);
    OwnOpen(st, k);
    assert Fds(st.mgrs[k].(isOpen := false, fd := None, stuck := false)) == {} by {
      NoFds(st.mgrs[k].(isOpen := false, fd := None, stuck := false));
    }
    if st.mgrs[k].fd.None? {
      NoFds(st.mgrs[k]);
    }
    CountsHandles(st, k);
    StuckFds(st.mgrs[k]);
    assert st.open - Fds(st.mgrs[k]) + Fds(st.mgrs[k]) == st.open;
    assert st.leaked + {} == st.leaked && st.open - {} + {} == st.open;
  }

  lemma NoFds(m: Manager)
    requires m.fd.None?
    ensures Fds(m) == {}
  {
  }

  lemma StuckFds(m: Manager)
    ensures Fds(m.(stuck := true)) == Fds(m)
  {
  }

  lemma CountsHandles(st: State, k: nat)
    requires Inv(st) && k < |st.mgrs|
    ensures st.mgrs[k].refcount == Count(st.handles, st.mgrs[k].device) >= 1
  {
    assert ManagerInv(st.mgrs[k], st.handles);
  }

  // ------------------------------------------------------------------
  // A close that fails
  // ------------------------------------------------------------------

  /** After serial_close the port is open iff somebody uses it, if and only if
      the port is still in use, was not open, or its line settings could be
      restored. The settings are restored only at the last close. */
  lemma CloseExactly(st: State, device: string, restoreOk: bool)
    requires Inv(st) && Find(st.mgrs, device).Some?
    ensures var k := Find(st.mgrs, device).value; var m := st.mgrs[k];
      var m' := Close(st, device, restoreOk).st.mgrs[k];
      (m'.isOpen <==> m'.opencount > 0) <==> m.opencount > 1 || m.fd.None? || restoreOk
  {
    var k := Find(st.mgrs, device).value;
    assert ManagerInv(st.mgrs[k], st.handles);
  }

  /** serial_destory loses a descriptor unless others still hold the port, it was
      not open, or its line settings could be restored. */
  predicate Loses(st: State, i: nat, restoreOk: bool)
    requires i < |st.handles|
  {
    var k := Find(st.mgrs, st.handles[i].device);
    k.Some? && st.mgrs[k.value].refcount <= 1 && st.mgrs[k.value].isOpen && !restoreOk
  }

  lemma DestroyExactly(st: State, i: nat, restoreOk: bool)
    requires Inv(st) && i < |st.handles|
    ensures st.leaked <= Destroy(st, i, restoreOk).leaked
    ensures Destroy(st, i, restoreOk).leaked != st.leaked <==> Loses(st, i, restoreOk)
  {
    hide Inv, ManagerInv, Find;
    var k := HolderFound(st, i);
    OwnDescriptor(st, k);
  }

  lemma OwnDescriptor(st: State, k: nat)
    requires Inv(st) && k < |st.mgrs|
    ensures st.mgrs[k].isOpen <==> st.mgrs[k].fd.Some?
    ensures st.mgrs[k].fd.Some? ==> st.mgrs[k].fd.value !in st.leaked
  {
    assert ManagerInv(st.mgrs[k], st.handles);
    assert Fds(st.mgrs[k]) !! st.leaked;
  }

  predicate StepLoses(st: State, e: Event) {
    e.EvDestroy? && e.i < |st.handles| && Loses(st, e.i, e.restoreOk)
  }

  /** Whether some destroy of the run loses a descriptor. */
  predicate RunLoses(st: State, events: seq<Event>)
    decreases |events|
  {
    events != [] && Allowed(st, events[0]) &&
    (StepLoses(st, events[0]) || RunLoses(Step(st, events[0]), events[1..]))
  }

  lemma StepLeaksExactly(st: State, e: Event)
    requires Inv(st) && Allowed(st, e)
    ensures st.leaked <= Step(st, e).leaked
    ensures Step(st, e).leaked != st.leaked <==> StepLoses(st, e)
  {
    hide Inv, Find, Destroy, Loses;
    if e.EvDestroy? {
      DestroyExactly(st, e.i, e.restoreOk);
    }
  }

  /** A run leaves a descriptor open that nobody can close iff one of its destroys
      was the last of an open port whose settings could not be restored. */
  lemma {:induction false} RunLeaksExactly(st: State, events: seq<Event>)
    requires Inv(st)
    ensures st.leaked <= Run(st, events).leaked
    ensures Run(st, events).leaked != st.leaked <==> RunLoses(st, events)
    decreases |events|
  {
    hide Inv, Step, StepLoses;
    if events == [] {
    } else if Allowed(st, events[0]) {
      StepInv(st, events[0]);
      StepLeaksExactly(st, events[0]);
      RunLeaksExactly(Step(st, events[0]), events[1..]);
    }
  }

  /** Every close and every destroy of the run can restore the line settings. */
  ghost predicate Restores(events: seq<Event>) {
    forall e :: e in events ==> (e.EvClose? || e.EvDestroy? ==> e.restoreOk)
  }

  ghost predicate NoneStuck(st: State) {
    forall i :: 0 <= i < |st.mgrs| ==> !st.mgrs[i].stuck
  }

  lemma StepRestores(st: State, e: Event)
    requires Inv(st) && Allowed(st, e) && NoneStuck(st) && (e.EvClose? || e.EvDestroy? ==> e.restoreOk)
    ensures NoneStuck(Step(st, e)) && !StepLoses(st, e)
  {
    hide Inv, Find;
  }

  lemma {:induction false} RunRestores(st: State, events: seq<Event>)
    requires Inv(st) && NoneStuck(st) && Restores(events)
    ensures NoneStuck(Run(st, events)) && !RunLoses(st, events)
    decreases |events|
  {
    hide Inv, Step, StepLoses, NoneStuck;
    if events == [] {
    } else if Allowed(st, events[0]) {
      assert events[0] in events;
      StepInv(st, events[0]);
      StepRestores(st, events[0]);
      RunRestores(Step(st, events[0]), events[1..]);
    }
  }

  /** If the settings can always be restored, then after every run a port is open
      iff somebody uses it, iff it has a descriptor, and every descriptor that is
      open belongs to exactly one port. */
  lemma RestoringRun(events: seq<Event>, k: nat, fd: nat)
    requires Restores(events)
    ensures var st := Run(INITIAL, events);
      && st.leaked == {}
      && (k < |st.mgrs| ==> var m := st.mgrs[k]; (m.isOpen <==> m.opencount > 0) && (m.isOpen <==> m.fd.Some?))
      && (fd in st.open <==> exists i :: 0 <= i < |st.mgrs| && st.mgrs[i].fd == Some(fd))
      && (forall i, j :: 0 <= i < j < |st.mgrs| && st.mgrs[i].fd == Some(fd) ==> st.mgrs[j].fd != Some(fd))
  {
    assert Inv(INITIAL) && NoneStuck(INITIAL);
    hide Inv, RunLoses;
    RunRestores(INITIAL, events);
    RunLeaksExactly(INITIAL, events);
    ReachableManager(events, k, 0);
    ReachableDescriptor(events, fd);
  }

  /** One caller, one failing restore: the port stays open with nobody using it,
      and destroying it loses the descriptor for good. */
  lemma LeakingRun(index: nat, line: Line, fd: nat)
    requires KnownParity(line.parity)
    ensures var st := Run(INITIAL, [EvNew(index, line, 0), EvOpen(0, Opened(fd)), EvClose(0, false)]);
      |st.mgrs| == 1 && st.mgrs[0].opencount == 0 && st.mgrs[0].isOpen
    ensures var st := Run(INITIAL, [EvNew(index, line, 0), EvOpen(0, Opened(fd)), EvClose(0, false),
                                    EvDestroy(0, false)]);
      st.mgrs == [] && st.handles == [] && fd in st.open && st.leaked == {fd}
  {
    hide Run, DevName;
    var m0 := Manager(DevName(index), line, 0, false, None, 1, 0, false);
    var h := Handle(DevName(index), line, 0);
    var es := [EvNew(index, line, 0), EvOpen(0, Opened(fd)), EvClose(0, false)];
    var st1 := State([m0], [h], {}, {});
    var m2 := m0.(isOpen := true, fd := Some(fd), opencount := 1);
    var st2 := State([m2], [h], {fd}, {});
    var m3 := m2.(opencount := 0, stuck := true);
    var st3 := State([m3], [h], {fd}, {});
    var st4 := State([], [], {fd}, {fd});
    assert Allowed(INITIAL, es[0]) && Step(INITIAL, es[0]) == st1;
    assert Allowed(st1, es[1]) && Step(st1, es[1]) == st2;
    assert Allowed(st2, es[2]) && Step(st2, es[2]) == st3;
    assert Allowed(st3, EvDestroy(0, false)) && Step(st3, EvDestroy(0, false)) == st4;
    RunThree(INITIAL, es, st1, st2, st3);
    RunAppend(INITIAL, es, EvDestroy(0, false));
    assert es + [EvDestroy(0, false)] ==
           [EvNew(index, line, 0), EvOpen(0, Opened(fd)), EvClose(0, false), EvDestroy(0, false)];
  }

  /** Two callers share a device. The second opening needs nothing from the device;
      the first close leaves it open, the second shuts it. */
  lemma SharingRun(index: nat, line: Line, fd: nat)
    requires KnownParity(line.parity)
    ensures var name := DevName(index);
      var twice := [EvNew(index, line, 1), EvNew(index, line, 1)];
      var st2 := Run(INITIAL, twice);
      var st3 := Run(INITIAL, twice + [EvOpen(0, Opened(fd))]);
      var st4 := Run(INITIAL, twice + [EvOpen(0, Opened(fd))] + [EvOpen(1, Refused)]);
      var st5 := Run(INITIAL, twice + [EvOpen(0, Opened(fd))] + [EvOpen(1, Refused)] + [EvClose(0, true)]);
      var st6 := Run(INITIAL, twice + [EvOpen(0, Opened(fd))] + [EvOpen(1, Refused)] + [EvClose(0, true)] +
                              [EvClose(1, true)]);
      && |st2.handles| == 2 && |st2.mgrs| == 1
      && Open(st2, name, Opened(fd)).rc == 0 && Open(st3, name, Refused).rc == 0
      && |st4.mgrs| == 1 && st4.mgrs[0].opencount == 2
      && |st5.mgrs| == 1 && st5.mgrs[0].isOpen && st5.open == {fd}
      && |st6.mgrs| == 1 && !st6.mgrs[0].isOpen && st6.open == {}
  {
    hide Run, DevName, AllAllowed, Step, Allowed, Open;
    var new1 := EvNew(index, line, 1);
    var st1, st2, st3, st4, st6 := SharingSteps(index, line, fd);
    RunNone(INITIAL);
    RunAppend(INITIAL, [], new1);
    assert [] + [new1] == [new1] && [new1] + [new1] == [new1, new1];
    RunAppend(INITIAL, [new1], new1);
    RunAppend(INITIAL, [new1, new1], EvOpen(0, Opened(fd)));
    var es3 := [new1, new1] + [EvOpen(0, Opened(fd))];
    RunAppend(INITIAL, es3, EvOpen(1, Refused));
    RunAppend(INITIAL, es3 + [EvOpen(1, Refused)], EvClose(0, true));
    RunAppend(INITIAL, es3 + [EvOpen(1, Refused)] + [EvClose(0, true)], EvClose(1, true));
  }

  lemma SharingSteps(index: nat, line: Line, fd: nat)
    returns (st1: State, st2: State, st3: State, st4: State, st6: State)
    requires KnownParity(line.parity)
    ensures var new1 := EvNew(index, line, 1);
      && Allowed(INITIAL, new1) && Step(INITIAL, new1) == st1
      && Allowed(st1, new1) && Step(st1, new1) == st2
      && Allowed(st2, EvOpen(0, Opened(fd))) && Step(st2, EvOpen(0, Opened(fd))) == st3
      && Allowed(st3, EvOpen(1, Refused)) && Step(st3, EvOpen(1, Refused)) == st4
      && Allowed(st4, EvClose(0, true)) && Step(st4, EvClose(0, true)) == st3
      && Allowed(st3, EvClose(1, true)) && Step(st3, EvClose(1, true)) == st6
    ensures |st2.handles| == 2 && |st2.mgrs| == 1
    ensures Open(st2, DevName(index), Opened(fd)).rc == 0 && Open(st3, DevName(index), Refused).rc == 0
    ensures |st3.mgrs| == 1 && st3.mgrs[0].isOpen && st3.open == {fd}
    ensures |st4.mgrs| == 1 && st4.mgrs[0].opencount == 2
    ensures |st6.mgrs| == 1 && !st6.mgrs[0].isOpen && st6.open == {}
  {
    hide DevName;
    var h := Handle(DevName(index), line, 1);
    var m := Manager(DevName(index), line, 1, false, None, 1, 0, false);
    var m3 := m.(refcount := 2, isOpen := true, fd := Some(fd), opencount := 1);
    st1 := State([m], [h], {}, {});
    st2 := State([m.(refcount := 2)], [h, h], {}, {});
    st3 := State([m3], [h, h], {fd}, {});
    st4 := State([m3.(opencount := 2)], [h, h], {fd}, {});
    st6 := State([m.(refcount := 2)], [h, h], {}, {});
  }

  lemma RunNone(st: State)
    ensures AllAllowed(st, []) && Run(st, []) == st
  {
  }

  lemma RunThree(st: State, es: seq<Event>, st1: State, st2: State, st3: State)
    requires |es| == 3 && Allowed(st, es[0]) && Step(st, es[0]) == st1
    requires Allowed(st1, es[1]) && Step(st1, es[1]) == st2 && Allowed(st2, es[2]) && Step(st2, es[2]) == st3
    ensures AllAllowed(st, es) && Run(st, es) == st3
  {
    hide Step, Allowed;
    var es1, es2, es3 := es[1..], es[1..][1..], es[1..][1..][1..];
    assert es1[0] == es[1] && es2[0] == es[2] && es3 == [];
    assert AllAllowed(st3, es3) && Run(st3, es3) == st3;
    assert AllAllowed(st2, es2) && Run(st2, es2) == st3;
    assert AllAllowed(st1, es1) && Run(st1, es1) == st3;
  }

  ghost predicate AllAllowed(st: State, events: seq<Event>)
    decreases |events|
  {
    events != [] ==> Allowed(st, events[0]) && AllAllowed(Step(st, events[0]), events[1..])
  }

  lemma {:induction false} RunAppend(st: State, es: seq<Event>, e: Event)
    requires AllAllowed(st, es) && Allowed(Run(st, es), e)
    ensures AllAllowed(st, es + [e]) && Run(st, es + [e]) == Step(Run(st, es), e)
    decreases |es|
  {
    hide Step, Allowed;
    if es == [] {
      assert es + [e] == [e] && [e][1..] == [];
    } else {
      assert (es + [e])[1..] == es[1..] + [e];
      RunAppend(Step(st, es[0]), es[1..], e);
    }
  }

  // ------------------------------------------------------------------
  // Opening and closing in balance
  // ------------------------------------------------------------------

  /** The handles' open counts, place by place, added up for one device. */
  function Total(handles: seq<Handle>, uses: seq<nat>, device: string): nat
    requires |handles| == |uses|
  {
    if handles == [] then 0
    else (if handles[0].device == device then uses[0] else 0) + Total(handles[1..], uses[1..], device)
  }

  /** How often each handle has been opened and not yet closed. */
  function Uses(st: State, uses: seq<nat>, e: Event): (r: seq<nat>)
    requires Allowed(st, e) && |uses| == |st.handles|
    ensures |r| == |Step(st, e).handles|
  {
    match e
    case EvNew(index, line, share) => if New(st, index, line, share).1.Some? then [0] + uses else uses
    case EvOpen(i, sys) => if Open(st, st.handles[i].device, sys).rc == 0 then uses[i := uses[i] + 1] else uses
    case EvClose(i, _) => if uses[i] > 0 then uses[i := uses[i] - 1] else uses
    case EvDestroy(i, _) => uses[..i] + uses[i + 1..]
  }

  /** Nobody closes a handle more often than it was opened, and nobody destroys
      one that is still open. */
  predicate Balanced(st: State, uses: seq<nat>, e: Event)
    requires |uses| == |st.handles|
  {
    match e
    case EvNew(_, _, _) => true
    case EvOpen(_, _) => true
    case EvClose(i, _) => i < |uses| && uses[i] > 0
    case EvDestroy(i, _) => i < |uses| && uses[i] == 0
  }

  predicate BalancedRun(st: State, uses: seq<nat>, events: seq<Event>)
    requires |uses| == |st.handles|
    decreases |events|
  {
    events != [] && Allowed(st, events[0]) ==>
      Balanced(st, uses, events[0]) && BalancedRun(Step(st, events[0]), Uses(st, uses, events[0]), events[1..])
  }

  function UsesAfter(st: State, uses: seq<nat>, events: seq<Event>): seq<nat>
    requires |uses| == |st.handles|
    decreases |events|
  {
    if events == [] || !Allowed(st, events[0]) then uses
    else UsesAfter(Step(st, events[0]), Uses(st, uses, events[0]), events[1..])
  }

  /** The open count of every port is what its handles still have to close. */
  ghost predicate Settled(st: State, uses: seq<nat>) {
    |uses| == |st.handles| &&
    forall k :: 0 <= k < |st.mgrs| ==> st.mgrs[k].opencount == Total(st.handles, uses, st.mgrs[k].device)
  }

  lemma {:induction false} TotalUpdate(handles: seq<Handle>, uses: seq<nat>, i: nat, n: nat, device: string)
    requires |handles| == |uses| && i < |uses|
    ensures Total(handles, uses[i := n], device) ==
            Total(handles, uses, device) + if handles[i].device == device then n - uses[i] else 0
  {
    if i == 0 {
      assert uses[i := n][1..] == uses[1..];
    } else {
      assert uses[i := n][1..] == uses[1..][i - 1 := n];
      TotalUpdate(handles[1..], uses[1..], i - 1, n, device);
    }
  }

  lemma {:induction false} TotalWithout(handles: seq<Handle>, uses: seq<nat>, i: nat, device: string)
    requires |handles| == |uses| && i < |uses| && uses[i] == 0
    ensures Total(handles[..i] + handles[i + 1..], uses[..i] + uses[i + 1..], device) == Total(handles, uses, device)
  {
    if i == 0 {
      assert handles[..0] + handles[1..] == handles[1..] && uses[..0] + uses[1..] == uses[1..];
    } else {
      TotalWithout(handles[1..], uses[1..], i - 1, device);
      assert (handles[..i] + handles[i + 1..])[1..] == handles[1..][..i - 1] + handles[1..][i..];
      assert (uses[..i] + uses[i + 1..])[1..] == uses[1..][..i - 1] + uses[1..][i..];
    }
  }

  lemma {:induction false} TotalElsewhere(handles: seq<Handle>, uses: seq<nat>, device: string)
    requires |handles| == |uses| && forall h :: h in handles ==> h.device != device
    ensures Total(handles, uses, device) == 0
  {
    if handles == [] {
    } else {
      TotalElsewhere(handles[1..], uses[1..], device);
    }
  }

  lemma NewSettles(st: State, uses: seq<nat>, index: nat, line: Line, share: int)
    requires Inv(st) && Settled(st, uses) && Allowed(st, EvNew(index, line, share))
    ensures Settled(New(st, index, line, share).0, Uses(st, uses, EvNew(index, line, share)))
  {
    hide ManagerInv, Descriptors, OneManager, Find, DevName;
    var st' := New(st, index, line, share).0;
    if New(st, index, line, share).1.Some? {
      var device := DevName(index);
      TotalMore(st, uses, st'.handles[0]);
      if Find(st.mgrs, device).None? {
        NobodyOn(st, device);
        TotalElsewhere(st.handles, uses, device);
        assert st'.mgrs[1..] == st.mgrs;
      }
    }
  }

  lemma TotalMore(st: State, uses: seq<nat>, h: Handle)
    requires |uses| == |st.handles|
    ensures forall device :: Total([h] + st.handles, [0] + uses, device) == Total(st.handles, uses, device)
  {
    assert ([h] + st.handles)[1..] == st.handles && ([0] + uses)[1..] == uses;
  }

  lemma NobodyOn(st: State, device: string)
    requires Inv(st) && Find(st.mgrs, device).None?
    ensures forall h :: h in st.handles ==> h.device != device
  {
    hide ManagerInv, Descriptors, OneManager;
  }

  lemma OpenSettles(st: State, uses: seq<nat>, i: nat, sys: OpenAnswer)
    requires Inv(st) && Settled(st, uses) && i < |st.handles|
    ensures var r := Open(st, st.handles[i].device, sys);
      Settled(r.st, if r.rc == 0 then uses[i := uses[i] + 1] else uses)
  {
    hide Inv, Find, Total, BackendOpen;
    var device := st.handles[i].device;
    var k := HolderFound(st, i);
    var r := Open(st, device, sys);
    OpenCounts(st.mgrs[k], sys);
    hide OpenManager;
    forall j | 0 <= j < |r.st.mgrs|
      ensures var uses' := if r.rc == 0 then uses[i := uses[i] + 1] else uses;
        r.st.mgrs[j].opencount == Total(st.handles, uses', r.st.mgrs[j].device)
    {
      TotalUpdate(st.handles, uses, i, uses[i] + 1, r.st.mgrs[j].device);
      OnlyOne(st, k, j);
    }
  }

  lemma OpenCounts(m: Manager, sys: OpenAnswer)
    ensures var r := OpenManager(m, sys);
      r.0.device == m.device && (m.opencount >= 0 ==> r.0.opencount == m.opencount + if r.1 == 0 then 1 else 0)
  {
  }

  lemma OnlyOne(st: State, k: nat, j: nat)
    requires Inv(st) && k < |st.mgrs| && j < |st.mgrs|
    ensures st.mgrs[j].device == st.mgrs[k].device <==> j == k
  {
  }

  /** A balanced close lowers the open count by one. It shuts the device exactly
      if it was the last. */
  lemma CloseSettles(st: State, uses: seq<nat>, i: nat, restoreOk: bool)
    requires Inv(st) && Settled(st, uses) && i < |st.handles| && uses[i] > 0
    ensures var device := st.handles[i].device; var r := Close(st, device, restoreOk);
      var uses' := uses[i := uses[i] - 1];
      && Settled(r.st, uses')
      && var k := Find(st.mgrs, device).value;
         && k < |r.st.mgrs| && st.mgrs[k].isOpen
         && Total(st.handles, uses', device) == Total(st.handles, uses, device) - 1
         && (r.rc == 0 <==> Total(st.handles, uses', device) > 0 || restoreOk)
         && (r.st.mgrs[k].isOpen <==> Total(st.handles, uses', device) > 0 || !restoreOk)
         && (r.st.open != st.open <==> Total(st.handles, uses', device) == 0 && restoreOk)
  {
    hide Inv, Find, Total;
    var device := st.handles[i].device;
    var k := HolderFound(st, i);
    var r := Close(st, device, restoreOk);
    TotalUpdate(st.handles, uses, i, uses[i] - 1, device);
    OpenInUse(st, k);
    forall j | 0 <= j < |r.st.mgrs|
      ensures r.st.mgrs[j].opencount == Total(st.handles, uses[i := uses[i] - 1], r.st.mgrs[j].device)
    {
      TotalUpdate(st.handles, uses, i, uses[i] - 1, r.st.mgrs[j].device);
      OnlyOne(st, k, j);
    }
  }

  lemma OpenInUse(st: State, k: nat)
    requires Inv(st) && k < |st.mgrs|
    ensures st.mgrs[k].opencount > 0 ==> st.mgrs[k].isOpen
    ensures st.mgrs[k].isOpen <==> st.mgrs[k].fd.Some?
    ensures Fds(st.mgrs[k]) <= st.open
  {
    assert ManagerInv(st.mgrs[k], st.handles);
  }

  lemma DestroySettles(st: State, uses: seq<nat>, i: nat, restoreOk: bool)
    requires Inv(st) && Settled(st, uses) && i < |st.handles| && uses[i] == 0
    ensures Settled(Destroy(st, i, restoreOk), uses[..i] + uses[i + 1..])
  {
    var k := HolderFound(st, i);
    hide Find, Inv, BackendClose;
    var st' := Destroy(st, i, restoreOk);
    forall j | 0 <= j < |st'.mgrs|
      ensures st'.mgrs[j].opencount == Total(st'.handles, uses[..i] + uses[i + 1..], st'.mgrs[j].device)
    {
      TotalWithout(st.handles, uses, i, st'.mgrs[j].device);
    }
  }

  lemma StepSettles(st: State, uses: seq<nat>, e: Event)
    requires Inv(st) && Settled(st, uses) && Allowed(st, e) && Balanced(st, uses, e)
    ensures Settled(Step(st, e), Uses(st, uses, e))
  {
    hide Inv, New, Open, Close, Destroy;
    match e
    case EvNew(index, line, share) => NewSettles(st, uses, index, line, share);
    case EvOpen(i, sys) => OpenSettles(st, uses, i, sys);
    case EvClose(i, restoreOk) => CloseSettles(st, uses, i, restoreOk);
    case EvDestroy(i, restoreOk) => DestroySettles(st, uses, i, restoreOk);
  }

  /** Over every balanced run the open count of a port is the sum of the opens its
      handles still have to close. */
  lemma {:induction false} RunSettles(st: State, uses: seq<nat>, events: seq<Event>)
    requires Inv(st) && Settled(st, uses) && BalancedRun(st, uses, events)
    ensures Settled(Run(st, events), UsesAfter(st, uses, events))
    decreases |events|
  {
    hide Inv, Step, Uses, Settled, Balanced;
    if events == [] {
    } else if Allowed(st, events[0]) {
      StepInv(st, events[0]);
      StepSettles(st, uses, events[0]);
      SettledLength(st, uses);
      RunSettles(Step(st, events[0]), Uses(st, uses, events[0]), events[1..]);
    }
  }

  lemma SettledLength(st: State, uses: seq<nat>)
    requires Settled(st, uses)
    ensures |uses| == |st.handles|
  {
  }
}
