/** The shared serial ports of serial_port.c and the open and close of
    serial_unix.c, as values: who may share a device, how long it lives, and what
    becomes of its descriptor. */
module SerialRegistry {
  import opened Basics

  datatype Line = Line(baud: int, parity: char, dataBit: int, stopBit: int)

  predicate KnownParity(c: char) {
    c == 'N' || c == 'E' || c == 'O'
  }

  /** A manager with the port it owns. `fd` is None for -1. `stuck` is not in the
      C code: it remembers that the last attempt to close failed to restore the
      line settings and so left the device open. */
  datatype Manager = Manager(device: string, line: Line, share: int, isOpen: bool, fd: Option<nat>,
                             refcount: int, opencount: int, stuck: bool)

  /** What a caller of serial_new asked for and got. */
  datatype Handle = Handle(device: string, line: Line, share: int)

  /** `mgrs` is the list serial_mangers, front first. The other fields only
      remember: the handles given out and not yet destroyed, the descriptors the
      system holds open, and those of them that nobody can close any more. */
  datatype State = State(mgrs: seq<Manager>, handles: seq<Handle>, open: set<nat>, leaked: set<nat>)

  const INITIAL := State([], [], {}, {})

  function Digits(n: nat): string {
    if n < 10 then [Digit(n)] else Digits(n / 10) + [Digit(n % 10)]
  }

  function Digit(n: nat): char
    requires n < 10
  {
    ('0' as int + n) as char
  }

  function DevName(index: nat): string {
    "/dev/ttyS" + Digits(index)
  }

  lemma {:induction false} DigitsInjective(m: nat, n: nat)
    requires Digits(m) == Digits(n)
    ensures m == n
  {
    assert Digits(m)[|Digits(m)| - 1] == Digit(m % 10) && Digits(n)[|Digits(n)| - 1] == Digit(n % 10);
    if m >= 10 && n >= 10 {
      assert Digits(m / 10) == Digits(m)[..|Digits(m)| - 1] == Digits(n)[..|Digits(n)| - 1] == Digits(n / 10);
      DigitsInjective(m / 10, n / 10);
    }
  }

  /** Two indices share a port exactly when they are equal: comparing names is
      comparing indices. */
  lemma DevNameInjective(m: nat, n: nat)
    ensures DevName(m) == DevName(n) <==> m == n
  {
    if DevName(m) == DevName(n) {
      assert Digits(m) == DevName(m)[9..] == DevName(n)[9..] == Digits(n);
      DigitsInjective(m, n);
    }
  }

  // ------------------------------------------------------------------
  // Operations
  // ------------------------------------------------------------------

  /** find_serial: the place of the first manager of that name. */
  function Find(mgrs: seq<Manager>, device: string): (k: Option<nat>)
    ensures k.None? <==> forall i :: 0 <= i < |mgrs| ==> mgrs[i].device != device
    ensures k.Some? ==> k.value < |mgrs| && mgrs[k.value].device == device
    ensures k.Some? ==> forall i :: 0 <= i < k.value ==> mgrs[i].device != device
  {
    if mgrs == [] then None
    else if mgrs[0].device == device then Some(0)
    else
      match Find(mgrs[1..], device)
      case None => None
      case Some(k) => Some(k + 1)
  }

  datatype Result = Result(st: State, rc: int)

  /** serial_new. The result is None when the device is taken; otherwise the
      caller holds one more handle on it. */
  function New(st: State, index: nat, line: Line, share: int): (State, Option<Handle>)
    requires Find(st.mgrs, DevName(index)).Some? || KnownParity(line.parity)
  {
    var device := DevName(index);
    var h := Handle(device, line, share);
    match Find(st.mgrs, device)
    case Some(k) =>
      var m := st.mgrs[k];
      if share == 0 || m.share == 0 then (st, None)
      else if m.line != line then (st, None)
      else (st.(mgrs := st.mgrs[k := m.(refcount := m.refcount + 1)], handles := [h] + st.handles), Some(h))
    case None =>
      var m := Manager(device, line, share, false, None, 1, 0, false);
      (st.(mgrs := [m] + st.mgrs, handles := [h] + st.handles), Some(h))
  }

  /** The answers of open and of the calls that set up the line. */
  datatype OpenAnswer = Refused | NotConfigured(fd: nat) | Opened(fd: nat)

  /** unix_serial_open. */
  function BackendOpen(m: Manager, sys: OpenAnswer): (Manager, int) {
    if m.isOpen then (m, 0)
    else
      match sys
      case Refused => (m.(fd := None), -1)
      case NotConfigured(_) => (m.(fd := None), -1)
      case Opened(fd) => (m.(fd := Some(fd), isOpen := true), 0)
  }

  /** unix_serial_close. */
  function BackendClose(m: Manager, restoreOk: bool): (Manager, int) {
    if m.fd.None? then (m, -1)
    else if !restoreOk then (m.(stuck := true), -1)
    else (m.(isOpen := false, fd := None, stuck := false), 0)
  }

  function Fds(m: Manager): set<nat> {
    if m.fd.Some? then {m.fd.value} else {}
  }

  function OpenManager(m: Manager, sys: OpenAnswer): (Manager, int) {
    if m.opencount > 0 then (m.(opencount := m.opencount + 1, isOpen := true), 0)
    else
      var (m', rc) := BackendOpen(m, sys);
      if rc == 0 then (m'.(opencount := m'.opencount + 1, isOpen := true, stuck := false), 0) else (m', -1)
  }

  function CloseManager(m: Manager, restoreOk: bool): (Manager, int) {
    var m' := if m.opencount > 0 then m.(opencount := m.opencount - 1) else m;
    if m'.opencount == 0 then BackendClose(m', restoreOk) else (m', 0)
  }

  /** serial_open; -1 when the device cannot be opened. */
  function Open(st: State, device: string, sys: OpenAnswer): Result {
    match Find(st.mgrs, device)
    case None => Result(st, -1)
    case Some(k) =>
      var (m, rc) := OpenManager(st.mgrs[k], sys);
      Result(st.(mgrs := st.mgrs[k := m], open := st.open - Fds(st.mgrs[k]) + Fds(m)), rc)
  }

  /** serial_close. */
  function Close(st: State, device: string, restoreOk: bool): Result {
    match Find(st.mgrs, device)
    case None => Result(st, -1)
    case Some(k) =>
      var (m, rc) := CloseManager(st.mgrs[k], restoreOk);
      Result(st.(mgrs := st.mgrs[k := m], open := st.open - Fds(st.mgrs[k]) + Fds(m)), rc)
  }

  /** serial_destory of the handle at place `i`. */
  function Destroy(st: State, i: nat, restoreOk: bool): State
    requires i < |st.handles|
  {
    var st1 := st.(handles := st.handles[..i] + st.handles[i + 1..]);
    match Find(st.mgrs, st.handles[i].device)
    case None => st1
    case Some(k) =>
      var m := st.mgrs[k];
      var n := if m.refcount > 0 then m.refcount - 1 else m.refcount;
      if n != 0 then st1.(mgrs := st.mgrs[k := m.(refcount := n)])
      else
        var (gone, _) := BackendClose(m, restoreOk);
        st1.(mgrs := st.mgrs[..k] + st.mgrs[k + 1..],
             open := st.open - Fds(m) + Fds(gone), leaked := st.leaked + Fds(gone))
  }

  // ------------------------------------------------------------------
  // The invariant
  // ------------------------------------------------------------------

  /** How many of the handles are on a device. */
  function Count(handles: seq<Handle>, device: string): nat {
    if handles == [] then 0 else (if handles[0].device == device then 1 else 0) + Count(handles[1..], device)
  }

  /** One manager against the handles on its device. */
  ghost predicate ManagerInv(m: Manager, handles: seq<Handle>) {
    && m.refcount == Count(handles, m.device) && 1 <= m.refcount
    && (m.isOpen <==> m.fd.Some?)
    && 0 <= m.opencount && (m.isOpen <==> m.opencount > 0 || m.stuck)
    && (forall h :: h in handles && h.device == m.device ==> h.line == m.line && (h.share == 0 <==> m.share == 0))
    && (2 <= m.refcount ==> m.share != 0)
  }

  ghost predicate OneManager(mgrs: seq<Manager>) {
    forall i, j :: 0 <= i < j < |mgrs| ==> mgrs[i].device != mgrs[j].device
  }

  /** Every open descriptor belongs to one manager, or has been leaked. */
  ghost predicate Descriptors(st: State) {
    && st.leaked <= st.open
    && (forall i :: 0 <= i < |st.mgrs| ==> Fds(st.mgrs[i]) <= st.open && Fds(st.mgrs[i]) !! st.leaked)
    && (forall i, j :: 0 <= i < j < |st.mgrs| ==> Fds(st.mgrs[i]) !! Fds(st.mgrs[j]))
    && (forall fd :: fd in st.open ==> fd in st.leaked || exists i :: 0 <= i < |st.mgrs| && fd in Fds(st.mgrs[i]))
  }

  ghost predicate Inv(st: State) {
    && OneManager(st.mgrs)
    && (forall i :: 0 <= i < |st.mgrs| ==> ManagerInv(st.mgrs[i], st.handles))
    && (forall h :: h in st.handles ==> Find(st.mgrs, h.device).Some?)
    && Descriptors(st)
  }

  // ------------------------------------------------------------------
  // What each operation keeps
  // ------------------------------------------------------------------

  /** The descriptor the system hands out is not one it holds open. */
  predicate FreshFd(st: State, sys: OpenAnswer) {
    sys.Opened? ==> sys.fd !in st.open
  }

  lemma {:induction false} CountZero(handles: seq<Handle>, device: string)
    ensures Count(handles, device) == 0 <==> forall h :: h in handles ==> h.device != device
  {
    if handles == [] {
    } else {
      assert handles == [handles[0]] + handles[1..];
      CountZero(handles[1..], device);
    }
  }

  lemma {:induction false} CountWithout(handles: seq<Handle>, i: nat, device: string)
    requires i < |handles|
    ensures Count(handles, device) ==
            Count(handles[..i] + handles[i + 1..], device) + if handles[i].device == device then 1 else 0
  {
    var rest := handles[..i] + handles[i + 1..];
    if i == 0 {
      assert rest == handles[1..];
    } else {
      CountWithout(handles[1..], i - 1, device);
      assert rest[1..] == handles[1..][..i - 1] + handles[1..][i..];
    }
  }

  lemma WithoutMembers(handles: seq<Handle>, i: nat)
    requires i < |handles|
    ensures forall h :: h in handles[..i] + handles[i + 1..] ==> h in handles
  {
  }

  lemma UpdateDescriptors(st: State, k: nat, m: Manager)
    requires Descriptors(st) && k < |st.mgrs|
    requires Fds(m) <= Fds(st.mgrs[k]) || Fds(m) !! st.open
    ensures Descriptors(st.(mgrs := st.mgrs[k := m], open := st.open - Fds(st.mgrs[k]) + Fds(m)))
  {
    var st' := st.(mgrs := st.mgrs[k := m], open := st.open - Fds(st.mgrs[k]) + Fds(m));
    hide Fds;
    forall i | 0 <= i < |st'.mgrs| ensures Fds(st'.mgrs[i]) <= st'.open && Fds(st'.mgrs[i]) !! st'.leaked {
      assert i != k ==> Fds(st.mgrs[i]) !! Fds(st.mgrs[k]);
    }
    forall fd | fd in st'.open && fd !in st'.leaked
      ensures exists i :: 0 <= i < |st'.mgrs| && fd in Fds(st'.mgrs[i])
    {
      if fd in Fds(m) {
        assert fd in Fds(st'.mgrs[k]);
      } else {
        var i :| 0 <= i < |st.mgrs| && fd in Fds(st.mgrs[i]);
        assert fd in Fds(st'.mgrs[i]);
      }
    }
  }

  /** Changing the open state of one manager. */
  lemma UpdateInv(st: State, k: nat, m: Manager)
    requires Inv(st) && k < |st.mgrs| && m.device == st.mgrs[k].device && ManagerInv(m, st.handles)
    requires Fds(m) <= Fds(st.mgrs[k]) || Fds(m) !! st.open
    ensures Inv(st.(mgrs := st.mgrs[k := m], open := st.open - Fds(st.mgrs[k]) + Fds(m)))
  {
    UpdateDescriptors(st, k, m);
    hide Descriptors, ManagerInv, Fds;
    SameNames(st.mgrs, st.mgrs[k := m]);
  }

  /** Finding depends only on the names. */
  lemma SameNames(a: seq<Manager>, b: seq<Manager>)
    requires |a| == |b| && forall i :: 0 <= i < |a| ==> a[i].device == b[i].device
    ensures forall device :: Find(a, device) == Find(b, device)
    ensures OneManager(a) ==> OneManager(b)
  {
    forall device ensures Find(a, device) == Find(b, device) {
      var x, y := Find(a, device), Find(b, device);
      if x.Some? && y.Some? {
        assert !(x.value < y.value) && !(y.value < x.value);
      }
    }
  }

  /** What opening and closing do to the manager itself. */
  lemma OpenManagerInv(m: Manager, sys: OpenAnswer, handles: seq<Handle>)
    requires ManagerInv(m, handles)
    ensures var m' := OpenManager(m, sys).0;
      && ManagerInv(m', handles) && m'.device == m.device
      && (Fds(m') <= Fds(m) || (sys.Opened? && Fds(m') == {sys.fd}))
  {
  }

  lemma CloseManagerInv(m: Manager, restoreOk: bool, handles: seq<Handle>)
    requires ManagerInv(m, handles)
    ensures var m' := CloseManager(m, restoreOk).0;
      ManagerInv(m', handles) && m'.device == m.device && Fds(m') <= Fds(m)
  {
  }

  lemma ManagerAt(st: State, k: nat)
    requires Inv(st) && k < |st.mgrs|
    ensures ManagerInv(st.mgrs[k], st.handles)
  {
    hide ManagerInv, Descriptors, OneManager;
  }

  lemma OpenInv(st: State, device: string, sys: OpenAnswer)
    requires Inv(st) && FreshFd(st, sys)
    ensures Inv(Open(st, device, sys).st)
  {
    hide Inv, ManagerInv, OpenManager, Fds;
    var k := Find(st.mgrs, device);
    if k.Some? {
      ManagerAt(st, k.value);
      OpenManagerInv(st.mgrs[k.value], sys, st.handles);
      UpdateInv(st, k.value, OpenManager(st.mgrs[k.value], sys).0);
    }
  }

  lemma CloseInv(st: State, device: string, restoreOk: bool)
    requires Inv(st)
    ensures Inv(Close(st, device, restoreOk).st)
  {
    hide Inv, ManagerInv, CloseManager, Fds;
    var k := Find(st.mgrs, device);
    if k.Some? {
      ManagerAt(st, k.value);
      CloseManagerInv(st.mgrs[k.value], restoreOk, st.handles);
      UpdateInv(st, k.value, CloseManager(st.mgrs[k.value], restoreOk).0);
    }
  }

  // ------------------------------------------------------------------
  // Giving out handles
  // ------------------------------------------------------------------

  lemma FindUnique(mgrs: seq<Manager>, device: string, i: nat)
    requires OneManager(mgrs) && i < |mgrs| && mgrs[i].device == device
    ensures Find(mgrs, device) == Some(i)
  {
    var k := Find(mgrs, device).value;
    assert !(k < i) && !(i < k);
  }

  /** Admission. A device in use is shared only between callers that all ask to
      share it, with the very same line settings. */
  lemma AdmissionExact(st: State, index: nat, line: Line, share: int)
    requires Inv(st) && (Find(st.mgrs, DevName(index)).Some? || KnownParity(line.parity))
    ensures New(st, index, line, share).1.Some? <==>
            forall h :: h in st.handles && h.device == DevName(index) ==>
              share != 0 && h.share != 0 && h.line == line
    ensures New(st, index, line, share).1.None? ==> New(st, index, line, share).0 == st
  {
    var device := DevName(index);
    var k := Find(st.mgrs, device);
    if k.Some? {
      var m := st.mgrs[k.value];
      assert ManagerInv(m, st.handles);
      CountZero(st.handles, device);
    }
  }

  /** One more handle on a shared device. */
  lemma SharedManagers(mgrs: seq<Manager>, handles: seq<Handle>, k: nat, h: Handle)
    requires OneManager(mgrs) && forall i :: 0 <= i < |mgrs| ==> ManagerInv(mgrs[i], handles)
    requires k < |mgrs| && h.device == mgrs[k].device && h.line == mgrs[k].line
    requires h.share != 0 && mgrs[k].share != 0
    ensures var mgrs' := mgrs[k := mgrs[k].(refcount := mgrs[k].refcount + 1)];
      forall i :: 0 <= i < |mgrs'| ==> ManagerInv(mgrs'[i], [h] + handles)
  {
    var mgrs' := mgrs[k := mgrs[k].(refcount := mgrs[k].refcount + 1)];
    assert ([h] + handles)[1..] == handles;
    forall i | 0 <= i < |mgrs'| ensures ManagerInv(mgrs'[i], [h] + handles) {
      assert ManagerInv(mgrs[i], handles);
      assert i != k ==> mgrs[i].device != h.device;
    }
  }

  lemma SharedInv(st: State, k: nat, h: Handle)
    requires Inv(st) && k < |st.mgrs| && h.device == st.mgrs[k].device && h.line == st.mgrs[k].line
    requires h.share != 0 && st.mgrs[k].share != 0
    ensures var m := st.mgrs[k].(refcount := st.mgrs[k].refcount + 1);
      Inv(st.(mgrs := st.mgrs[k := m], handles := [h] + st.handles))
  {
    hide Descriptors, ManagerInv, Find, OneManager;
    var m := st.mgrs[k].(refcount := st.mgrs[k].refcount + 1);
    var st' := st.(mgrs := st.mgrs[k := m], handles := [h] + st.handles);
    FindUnique(st.mgrs, h.device, k);
    RecountInv(st, k, m, st'.handles);
    SharedManagers(st.mgrs, st.handles, k, h);
    SharedFound(st, k, m, h);
    assert OneManager(st'.mgrs) && Descriptors(st');
    assert forall i :: 0 <= i < |st'.mgrs| ==> ManagerInv(st'.mgrs[i], st'.handles);
  }

  lemma SharedFound(st: State, k: nat, m: Manager, h: Handle)
    requires k < |st.mgrs| && (forall g :: g in st.handles ==> Find(st.mgrs, g.device).Some?) &&
             Find(st.mgrs, h.device).Some?
    requires forall device :: Find(st.mgrs[k := m], device) == Find(st.mgrs, device)
    ensures forall g :: g in [h] + st.handles ==> Find(st.mgrs[k := m], g.device).Some?
  {
    hide Find;
    forall g | g in [h] + st.handles ensures Find(st.mgrs[k := m], g.device).Some? {
      assert g == h || g in st.handles;
    }
  }

  /** A new reference count and new handles leave names and descriptors alone. */
  lemma RecountInv(st: State, k: nat, m: Manager, handles: seq<Handle>)
    requires OneManager(st.mgrs) && Descriptors(st) && k < |st.mgrs| && m == st.mgrs[k].(refcount := m.refcount)
    ensures OneManager(st.mgrs[k := m]) && forall device :: Find(st.mgrs[k := m], device) == Find(st.mgrs, device)
    ensures Descriptors(st.(mgrs := st.mgrs[k := m], handles := handles))
  {
    UpdateDescriptors(st, k, m);
    assert st.open - Fds(st.mgrs[k]) + Fds(m) == st.open;
    SameDescriptors(st.(mgrs := st.mgrs[k := m]), handles);
    SameNames(st.mgrs, st.mgrs[k := m]);
  }

  lemma SameDescriptors(st: State, handles: seq<Handle>)
    requires Descriptors(st)
    ensures Descriptors(st.(handles := handles))
  {
  }

  /** The first handle on a device. */
  lemma FirstInv(st: State, m: Manager, h: Handle)
    requires Inv(st) && Find(st.mgrs, m.device).None? && h == Handle(m.device, m.line, m.share)
    requires m == Manager(h.device, h.line, h.share, false, None, 1, 0, false)
    ensures Inv(st.(mgrs := [m] + st.mgrs, handles := [h] + st.handles))
  {
    hide Descriptors, ManagerInv;
    FirstManagers(st, m, h);
    FirstDescriptors(st, m, h);
    var st' := st.(mgrs := [m] + st.mgrs, handles := [h] + st.handles);
    forall g | g in st'.handles ensures Find(st'.mgrs, g.device).Some? {
      assert g == h || g in st.handles;
      if g.device == m.device {
        assert st'.mgrs[0].device == g.device;
      } else {
        assert st'.mgrs[Find(st.mgrs, g.device).value + 1].device == g.device;
      }
    }
  }

  lemma FirstManagers(st: State, m: Manager, h: Handle)
    requires Inv(st) && Find(st.mgrs, m.device).None? && h == Handle(m.device, m.line, m.share)
    requires m == Manager(h.device, h.line, h.share, false, None, 1, 0, false)
    ensures forall i :: 0 <= i < |st.mgrs| + 1 ==> ManagerInv(([m] + st.mgrs)[i], [h] + st.handles)
    ensures OneManager([m] + st.mgrs)
  {
    hide Descriptors;
    var mgrs, handles := [m] + st.mgrs, [h] + st.handles;
    assert handles[1..] == st.handles;
    CountZero(st.handles, m.device);
    forall i | 0 <= i < |mgrs| ensures ManagerInv(mgrs[i], handles) {
      if i > 0 {
        assert ManagerInv(st.mgrs[i - 1], st.handles) && mgrs[i] == st.mgrs[i - 1];
      }
    }
  }

  lemma FirstDescriptors(st: State, m: Manager, h: Handle)
    requires Descriptors(st) && m.fd.None?
    ensures Descriptors(st.(mgrs := [m] + st.mgrs, handles := [h] + st.handles))
  {
    var mgrs := [m] + st.mgrs;
    forall i | 0 <= i < |mgrs| ensures Fds(mgrs[i]) <= st.open && Fds(mgrs[i]) !! st.leaked {
      if i > 0 {
        assert mgrs[i] == st.mgrs[i - 1];
      }
    }
    forall i, j | 0 <= i < j < |mgrs| ensures Fds(mgrs[i]) !! Fds(mgrs[j]) {
      assert mgrs[j] == st.mgrs[j - 1];
      assert i > 0 ==> mgrs[i] == st.mgrs[i - 1];
    }
    forall fd | fd in st.open && fd !in st.leaked ensures exists i :: 0 <= i < |mgrs| && fd in Fds(mgrs[i]) {
      var i :| 0 <= i < |st.mgrs| && fd in Fds(st.mgrs[i]);
      assert mgrs[i + 1] == st.mgrs[i];
    }
  }

  lemma NewInv(st: State, index: nat, line: Line, share: int)
    requires Inv(st) && (Find(st.mgrs, DevName(index)).Some? || KnownParity(line.parity))
    ensures Inv(New(st, index, line, share).0)
  {
    var device := DevName(index);
    var h := Handle(device, line, share);
    var k := Find(st.mgrs, device);
    if k.None? {
      FirstInv(st, Manager(device, line, share, false, None, 1, 0, false), h);
    } else if New(st, index, line, share).1.Some? {
      SharedInv(st, k.value, h);
    }
  }

  // ------------------------------------------------------------------
  // Taking handles back
  // ------------------------------------------------------------------

  lemma ReleaseManagers(mgrs: seq<Manager>, handles: seq<Handle>, i: nat, k: nat)
    requires OneManager(mgrs) && forall j :: 0 <= j < |mgrs| ==> ManagerInv(mgrs[j], handles)
    requires i < |handles| && k < |mgrs| && mgrs[k].device == handles[i].device && mgrs[k].refcount > 1
    ensures var mgrs' := mgrs[k := mgrs[k].(refcount := mgrs[k].refcount - 1)];
      forall j :: 0 <= j < |mgrs'| ==> ManagerInv(mgrs'[j], handles[..i] + handles[i + 1..])
  {
    var mgrs' := mgrs[k := mgrs[k].(refcount := mgrs[k].refcount - 1)];
    WithoutMembers(handles, i);
    forall j | 0 <= j < |mgrs'| ensures ManagerInv(mgrs'[j], handles[..i] + handles[i + 1..]) {
      assert ManagerInv(mgrs[j], handles);
      CountWithout(handles, i, mgrs[j].device);
      assert j != k ==> mgrs[j].device != mgrs[k].device;
    }
  }

  /** One handle less on a device that others still hold. */
  lemma ReleaseInv(st: State, i: nat, k: nat)
    requires Inv(st) && i < |st.handles| && k < |st.mgrs| && st.mgrs[k].device == st.handles[i].device
    requires st.mgrs[k].refcount > 1
    ensures Inv(st.(mgrs := st.mgrs[k := st.mgrs[k].(refcount := st.mgrs[k].refcount - 1)],
                    handles := st.handles[..i] + st.handles[i + 1..]))
  {
    hide Descriptors, ManagerInv, Find, OneManager;
    var m := st.mgrs[k].(refcount := st.mgrs[k].refcount - 1);
    var st' := st.(mgrs := st.mgrs[k := m], handles := st.handles[..i] + st.handles[i + 1..]);
    RecountInv(st, k, m, st'.handles);
    ReleaseManagers(st.mgrs, st.handles, i, k);
    WithoutMembers(st.handles, i);
    assert OneManager(st'.mgrs) && Descriptors(st');
    assert forall j :: 0 <= j < |st'.mgrs| ==> ManagerInv(st'.mgrs[j], st'.handles);
    assert forall h :: h in st'.handles ==> h in st.handles;
  }

  /** The last handle on a device takes the manager with it. */
  lemma LastInv(st: State, i: nat, k: nat, left: set<nat>)
    requires Inv(st) && i < |st.handles| && k < |st.mgrs| && st.mgrs[k].device == st.handles[i].device
    requires st.mgrs[k].refcount == 1 && left <= Fds(st.mgrs[k])
    ensures Inv(st.(mgrs := st.mgrs[..k] + st.mgrs[k + 1..], handles := st.handles[..i] + st.handles[i + 1..],
                    open := st.open - Fds(st.mgrs[k]) + left, leaked := st.leaked + left))
  {
    var mgrs, rest := st.mgrs[..k] + st.mgrs[k + 1..], st.handles[..i] + st.handles[i + 1..];
    hide Descriptors, ManagerInv, OneManager, Find;
    LastDescriptors(st, k, left, rest);
    LastManagers(st, i, k);
    WithoutMembers(st.handles, i);
    forall h | h in rest ensures Find(mgrs, h.device).Some? {
      assert h in st.handles;
      FoundElsewhere(st.mgrs, k, h.device);
    }
  }

  /** Taking one manager out does not hide the managers of other devices. */
  lemma FoundElsewhere(mgrs: seq<Manager>, k: nat, device: string)
    requires k < |mgrs| && Find(mgrs, device).Some? && mgrs[k].device != device
    ensures Find(mgrs[..k] + mgrs[k + 1..], device).Some?
  {
    hide Find;
    var j := Find(mgrs, device).value;
    assert (mgrs[..k] + mgrs[k + 1..])[if j < k then j else j - 1] == mgrs[j];
  }

  lemma LastManagers(st: State, i: nat, k: nat)
    requires Inv(st) && i < |st.handles| && k < |st.mgrs| && st.mgrs[k].device == st.handles[i].device
    requires st.mgrs[k].refcount == 1
    ensures var mgrs, rest := st.mgrs[..k] + st.mgrs[k + 1..], st.handles[..i] + st.handles[i + 1..];
      && OneManager(mgrs)
      && (forall j :: 0 <= j < |mgrs| ==> ManagerInv(mgrs[j], rest))
      && (forall h :: h in rest ==> h.device != st.mgrs[k].device)
  {
    hide Descriptors;
    var device := st.mgrs[k].device;
    var mgrs, rest := st.mgrs[..k] + st.mgrs[k + 1..], st.handles[..i] + st.handles[i + 1..];
    assert ManagerInv(st.mgrs[k], st.handles);
    WithoutMembers(st.handles, i);
    CountWithout(st.handles, i, device);
    CountZero(rest, device);
    forall j | 0 <= j < |mgrs| ensures ManagerInv(mgrs[j], rest) && mgrs[j].device != device {
      var j' := if j < k then j else j + 1;
      assert mgrs[j] == st.mgrs[j'] && ManagerInv(st.mgrs[j'], st.handles);
      assert st.mgrs[j'].device != device;
      CountWithout(st.handles, i, mgrs[j].device);
    }
  }

  lemma LastDescriptors(st: State, k: nat, left: set<nat>, rest: seq<Handle>)
    requires Descriptors(st) && k < |st.mgrs| && left <= Fds(st.mgrs[k])
    ensures Descriptors(st.(mgrs := st.mgrs[..k] + st.mgrs[k + 1..], handles := rest,
                            open := st.open - Fds(st.mgrs[k]) + left, leaked := st.leaked + left))
  {
    hide Fds;
    var mgrs := st.mgrs[..k] + st.mgrs[k + 1..];
    var open := st.open - Fds(st.mgrs[k]) + left;
    forall i | 0 <= i < |mgrs|
      ensures Fds(mgrs[i]) <= st.open && Fds(mgrs[i]) !! Fds(st.mgrs[k]) && Fds(mgrs[i]) !! st.leaked
    {
      var i' := if i < k then i else i + 1;
      assert mgrs[i] == st.mgrs[i'] && Fds(st.mgrs[i']) !! Fds(st.mgrs[k]);
    }
    forall i, j | 0 <= i < j < |mgrs| ensures Fds(mgrs[i]) !! Fds(mgrs[j]) {
      assert mgrs[i] == st.mgrs[if i < k then i else i + 1] && mgrs[j] == st.mgrs[if j < k then j else j + 1];
    }
    forall fd | fd in open && fd !in st.leaked + left ensures exists i :: 0 <= i < |mgrs| && fd in Fds(mgrs[i]) {
      OwnerElsewhere(st, k, fd);
    }
  }

  lemma OwnerElsewhere(st: State, k: nat, fd: nat)
    requires Descriptors(st) && k < |st.mgrs| && fd in st.open && fd !in st.leaked && fd !in Fds(st.mgrs[k])
    ensures var mgrs := st.mgrs[..k] + st.mgrs[k + 1..]; exists i :: 0 <= i < |mgrs| && fd in Fds(mgrs[i])
  {
    hide Fds;
    var i :| 0 <= i < |st.mgrs| && fd in Fds(st.mgrs[i]);
    assert (st.mgrs[..k] + st.mgrs[k + 1..])[if i < k then i else i - 1] == st.mgrs[i];
  }

  lemma DestroyInv(st: State, i: nat, restoreOk: bool)
    requires Inv(st) && i < |st.handles|
    ensures Inv(Destroy(st, i, restoreOk))
  {
    hide Inv, ManagerInv, Find, KnownParity;
    var k := HolderFound(st, i);
    var m := st.mgrs[k];
    if m.refcount == 1 {
      LastInv(st, i, k, Fds(BackendClose(m, restoreOk).0));
    } else {
      ReleaseInv(st, i, k);
    }
  }

  /** The device of a handle has a manager, which counts at least this handle. */
  lemma HolderFound(st: State, i: nat) returns (k: nat)
    requires Inv(st) && i < |st.handles|
    ensures Find(st.mgrs, st.handles[i].device) == Some(k) && k < |st.mgrs|
    ensures st.mgrs[k].device == st.handles[i].device && st.mgrs[k].refcount >= 1
  {
    assert st.handles[i] in st.handles;
    k := Find(st.mgrs, st.handles[i].device).value;
    assert ManagerInv(st.mgrs[k], st.handles);
  }

  // ------------------------------------------------------------------
  // Runs
  // ------------------------------------------------------------------

  datatype Event =
    | EvNew(index: nat, line: Line, share: int)
    | EvOpen(i: nat, sys: OpenAnswer)
    | EvClose(i: nat, restoreOk: bool)
    | EvDestroy(i: nat, restoreOk: bool)

  /** Every handle is used only until it is destroyed, descriptors are fresh, and
      a new port has a known parity. */
  predicate Allowed(st: State, e: Event) {
    match e
    case EvNew(index, line, _) => Find(st.mgrs, DevName(index)).Some? || KnownParity(line.parity)
    case EvOpen(i, sys) => i < |st.handles| && FreshFd(st, sys)
    case EvClose(i, _) => i < |st.handles|
    case EvDestroy(i, _) => i < |st.handles|
  }

  function Step(st: State, e: Event): State
    requires Allowed(st, e)
  {
    match e
    case EvNew(index, line, share) => New(st, index, line, share).0
    case EvOpen(i, sys) => Open(st, st.handles[i].device, sys).st
    case EvClose(i, restoreOk) => Close(st, st.handles[i].device, restoreOk).st
    case EvDestroy(i, restoreOk) => Destroy(st, i, restoreOk)
  }

  /** A run, which ends early at an event that is not allowed. */
  function Run(st: State, events: seq<Event>): State
    decreases |events|
  {
    if events == [] || !Allowed(st, events[0]) then st else Run(Step(st, events[0]), events[1..])
  }

  lemma StepInv(st: State, e: Event)
    requires Inv(st) && Allowed(st, e)
    ensures Inv(Step(st, e))
  {
    hide Inv, New, Open, Close, Destroy;
    match e
    case EvNew(index, line, share) => NewInv(st, index, line, share);
    case EvOpen(i, sys) => OpenInv(st, st.handles[i].device, sys);
    case EvClose(i, restoreOk) => CloseInv(st, st.handles[i].device, restoreOk);
    case EvDestroy(i, restoreOk) => DestroyInv(st, i, restoreOk);
  }

  lemma {:induction false} RunInv(st: State, events: seq<Event>)
    requires Inv(st)
    ensures Inv(Run(st, events))
    decreases |events|
  {
    hide Inv, Step;
    if events == [] {
    } else if Allowed(st, events[0]) {
      StepInv(st, events[0]);
      RunInv(Step(st, events[0]), events[1..]);
    }
  }

  /** Over every run from the start: a device has one manager, whose reference
      count is the number of handles on it; several handles mean that all of them
      share and agree on the line; the port is open iff it has a descriptor, and
      iff it is in use or could not be closed. */
  lemma ReachableManager(events: seq<Event>, i: nat, j: nat)
    ensures var st := Run(INITIAL, events);
      && (i < |st.mgrs| ==>
            var m := st.mgrs[i];
            && (j < |st.mgrs| && i != j ==> st.mgrs[j].device != m.device)
            && m.refcount == Count(st.handles, m.device) > 0
            && (m.isOpen <==> m.fd.Some?) && (m.isOpen <==> m.opencount > 0 || m.stuck)
            && (forall g, h :: g in st.handles && h in st.handles && g.device == m.device == h.device ==>
                  g.line == h.line && (m.refcount > 1 ==> g.share != 0 && h.share != 0)))
      && (i < |st.handles| ==> Find(st.mgrs, st.handles[i].device).Some?)
  {
    assert Inv(INITIAL);
    RunInv(INITIAL, events);
    var st := Run(INITIAL, events);
    if i < |st.mgrs| {
      assert ManagerInv(st.mgrs[i], st.handles);
    }
    if i < |st.handles| {
      assert st.handles[i] in st.handles;
    }
  }

  lemma DescriptorOwner(st: State, fd: nat)
    requires Descriptors(st)
    ensures fd in st.open && fd !in st.leaked <==> exists i :: 0 <= i < |st.mgrs| && st.mgrs[i].fd == Some(fd)
    ensures forall i, j :: 0 <= i < j < |st.mgrs| && st.mgrs[i].fd == Some(fd) ==> st.mgrs[j].fd != Some(fd)
  {
    forall m: Manager ensures fd in Fds(m) <==> m.fd == Some(fd) {
    }
    hide Fds;
    forall i | 0 <= i < |st.mgrs| && st.mgrs[i].fd == Some(fd) ensures fd in st.open && fd !in st.leaked {
      assert fd in Fds(st.mgrs[i]);
    }
    forall i, j | 0 <= i < j < |st.mgrs| && st.mgrs[i].fd == Some(fd) ensures st.mgrs[j].fd != Some(fd) {
      assert Fds(st.mgrs[i]) !! Fds(st.mgrs[j]) && fd in Fds(st.mgrs[i]);
    }
  }

  /** Over every run: a descriptor the system still holds open is that of exactly
      one manager, unless the closing of a destroyed port failed. */
  lemma ReachableDescriptor(events: seq<Event>, fd: nat)
    ensures var st := Run(INITIAL, events);
      && (fd in st.open && fd !in st.leaked <==> exists i :: 0 <= i < |st.mgrs| && st.mgrs[i].fd == Some(fd))
      && (forall i, j :: 0 <= i < j < |st.mgrs| && st.mgrs[i].fd == Some(fd) ==> st.mgrs[j].fd != Some(fd))
  {
    assert Inv(INITIAL);
    RunInv(INITIAL, events);
    DescriptorOwner(Run(INITIAL, events), fd);
  }
}
