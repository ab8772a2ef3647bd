/** serial_port.c and serial_unix.c as they run: ports and managers updated in
    place, a cursor over the list of managers, and the chunked read. Every method
    is tied to the function of module SerialRegistry that says what it does. */
module SerialPort {
  import opened Basics
  import Reg = SerialRegistry
  import SerialUse

  /** serial_t with its serial_rtu_t. */
  class Port {
    const device: string
    const line: Reg.Line
    const shareMode: int
    var isOpen: bool
    var s: Option<nat>

    constructor (device: string, line: Reg.Line, shareMode: int)
      ensures this.device == device && this.line == line && this.shareMode == shareMode
      ensures !isOpen && s.None?
    {
      this.device, this.line, this.shareMode := device, line, shareMode;
      isOpen, s := false, None;
    }

    /** unix_serial_open. */
    method Open(sys: Reg.OpenAnswer) returns (rc: int)
      modifies this
      ensures rc == 0 || rc == -1
      ensures old(isOpen) ==> rc == 0 && isOpen && s == old(s)
      ensures !old(isOpen) ==> (isOpen <==> sys.Opened?) && (rc == 0 <==> isOpen)
      ensures !old(isOpen) ==> s == if sys.Opened? then Some(sys.fd) else None
    {
      if isOpen {
        return 0;
      }
      match sys
      case Refused =>
        s := None;
        return -1;
      case NotConfigured(fd) =>
        s := Some(fd);
        s := None;
        return -1;
      case Opened(fd) =>
        s := Some(fd);
        isOpen := true;
        return 0;
    }

    /** unix_serial_close. */
    method Close(restoreOk: bool) returns (rc: int)
      modifies this
      ensures rc == if old(s).Some? && restoreOk then 0 else -1
      ensures if rc == 0 then !isOpen && s.None? else isOpen == old(isOpen) && s == old(s)
    {
      if s.None? {
        return -1;
      }
      if !restoreOk {
        return -1;
      }
      isOpen := false;
      s := None;
      return 0;
    }
  }

  // ------------------------------------------------------------------
  // The chunked read
  // ------------------------------------------------------------------

  const CHUNK := 1024

  /** One round of the read loop: whether the wait for input ended before its
      time-out, and what read then delivers at most. */
  datatype Round = Round(ready: bool, bytes: seq<byte>)

  /** How the loop ends: the buffer is full, the wait timed out, or nothing came. */
  datatype End = Full | TimedOut | Dry

  /** What one read call delivers when `want` bytes are still wanted. */
  function Chunk(r: Round, want: nat): (c: seq<byte>)
    ensures c <= r.bytes && |c| == Min(Min(want, 1024), |r.bytes|)
  {
    var most := if want < CHUNK then want else CHUNK;
    r.bytes[..if |r.bytes| < most then |r.bytes| else most]
  }

  /** The bytes of the rounds from `i` on, until `want` are there or one fails. */
  function Gather(rounds: nat -> Round, i: nat, want: nat, waits: bool): (r: (seq<byte>, End))
    ensures |r.0| <= want && (r.1.Full? <==> |r.0| == want)
    ensures r.1.TimedOut? ==> waits
    decreases want
  {
    if want == 0 then ([], Full)
    else if waits && !rounds(i).ready then ([], TimedOut)
    else
      var c := Chunk(rounds(i), want);
      if c == [] then ([], Dry)
      else
        var (rest, end) := Gather(rounds, i + 1, want - |c|, waits);
        (c + rest, end)
  }

  /** What `k` reads bring together, each bringing as much as is there, at most 1024
      bytes and no more than is still wanted. */
  function FirstReads(rounds: nat -> Round, k: nat, want: nat): (got: seq<byte>)
    ensures |got| <= want
  {
    if k == 0 then []
    else
      var got, bytes := FirstReads(rounds, k - 1, want), rounds(k - 1).bytes;
      got + bytes[..Min(Min(want - |got|, 1024), |bytes|)]
  }

  /** When the loop stops: before the first round at which nothing is wanted any
      more, the wait times out, or nothing comes. It has what the rounds before it
      bring. */
  ghost predicate StopsAt(rounds: nat -> Round, k: nat, want: nat, waits: bool, end: End) {
    if |FirstReads(rounds, k, want)| == want then end.Full?
    else if waits && !rounds(k).ready then end.TimedOut?
    else rounds(k).bytes == [] && end.Dry?
  }

  ghost predicate GoesOn(rounds: nat -> Round, j: nat, want: nat, waits: bool) {
    |FirstReads(rounds, j, want)| < want && (waits ==> rounds(j).ready) && rounds(j).bytes != []
  }

  lemma {:induction false} GatherFrom(rounds: nat -> Round, i: nat, want: nat, waits: bool) returns (k: nat)
    ensures i <= k && forall j :: i <= j < k ==> GoesOn(rounds, j, want, waits)
    ensures var got := FirstReads(rounds, i, want);
      var (data, end) := Gather(rounds, i, want - |got|, waits);
      got + data == FirstReads(rounds, k, want) && StopsAt(rounds, k, want, waits, end)
    decreases want - |FirstReads(rounds, i, want)|
  {
    hide Gather, FirstReads, Chunk;
    var got := FirstReads(rounds, i, want);
    k := i;
    assert got + [] == got;
    if |got| == want {
      GatherEnds(rounds, i, 0, waits);
    } else {
      var c := Chunk(rounds(i), want - |got|);
      GatherStep(rounds, i, want - |got|, waits);
      NextRead(rounds, i, want);
      if (waits ==> rounds(i).ready) && c != [] {
        k := GatherFrom(rounds, i + 1, want, waits);
        var rest := Gather(rounds, i + 1, want - |got| - |c|, waits).0;
        assert got + (c + rest) == (got + c) + rest;
      }
    }
  }

  lemma NextRead(rounds: nat -> Round, i: nat, want: nat)
    requires |FirstReads(rounds, i, want)| < want
    ensures var got := FirstReads(rounds, i, want);
      var c := Chunk(rounds(i), want - |got|);
      FirstReads(rounds, i + 1, want) == got + c && (c == [] <==> rounds(i).bytes == [])
  {
  }

  /** Exactly what the read loop gathers: the reads up to the first round that stops
      it, and why it stopped there. */
  lemma GatherExactly(rounds: nat -> Round, want: nat, waits: bool) returns (k: nat)
    ensures forall j :: 0 <= j < k ==> GoesOn(rounds, j, want, waits)
    ensures Gather(rounds, 0, want, waits).0 == FirstReads(rounds, k, want)
    ensures StopsAt(rounds, k, want, waits, Gather(rounds, 0, want, waits).1)
  {
    k := GatherFrom(rounds, 0, want, waits);
    var data := Gather(rounds, 0, want, waits).0;
    assert [] + data == data;
  }

  /** memcpy of a chunk behind what is there already. */
  method CopyTo(buf: array<byte>, at: nat, c: seq<byte>)
    requires at + |c| <= buf.Length
    modifies buf
    ensures buf[..at + |c|] == old(buf[..at]) + c
    ensures buf[at + |c|..] == old(buf[at + |c|..])
    ensures old(buf[at..])[|c|..] == old(buf[at + |c|..])
  {
    forall j | 0 <= j < |c| {
      buf[at + j] := c[j];
    }
  }

  /** One round of the gathering, unfolded. */
  lemma GatherStep(rounds: nat -> Round, i: nat, want: nat, waits: bool)
    requires 0 < want
    ensures Gather(rounds, i, want, waits) ==
            if waits && !rounds(i).ready then ([], TimedOut)
            else if Chunk(rounds(i), want) == [] then ([], Dry)
            else
              var c := Chunk(rounds(i), want);
              After(c, Gather(rounds, i + 1, want - |c|, waits))
  {
  }

  lemma GatherEnds(rounds: nat -> Round, i: nat, want: nat, waits: bool)
    ensures want == 0 ==> Gather(rounds, i, want, waits) == ([], Full)
  {
  }

  /** More bytes in front of what the rest of the rounds bring. */
  function After(got: seq<byte>, r: (seq<byte>, End)): (seq<byte>, End) {
    (got + r.0, r.1)
  }

  lemma AfterTwice(a: seq<byte>, b: seq<byte>, r: (seq<byte>, End))
    ensures After(a, After(b, r)) == After(a + b, r) && After([], r) == r
    ensures forall e :: After(a, ([], e)) == (a, e)
  {
    assert a + (b + r.0) == (a + b) + r.0;
    assert a + [] == a && [] + r.0 == r.0;
  }

  /** The loop of unix_serial_read. */
  method ReadRounds(buf: array<byte>, want: nat, waits: bool, rounds: nat -> Round) returns (n: nat, dry: bool)
    requires want <= buf.Length
    modifies buf
    ensures n <= buf.Length && Gather(rounds, 0, want, waits).0 == buf[..n] && buf[n..] == old(buf[n..])
    ensures dry <==> Gather(rounds, 0, want, waits).1.Dry?
  {
    hide Chunk, Gather, After;
    var i := 0;
    n, dry := 0, false;
    ghost var got: seq<byte> := [];
    AfterTwice([], [], Gather(rounds, 0, want, waits));
    while n < want
      invariant 0 <= n == |got| <= want && 0 <= i && !dry
      invariant buf[..n] == got && buf[n..] == old(buf[n..])
      invariant Gather(rounds, 0, want, waits) == After(got, Gather(rounds, i, want - n, waits))
      decreases want - n
    {
      GatherStep(rounds, i, want - n, waits);
      ghost var next := Chunk(rounds(i), want - n);
      AfterTwice(got, next, Gather(rounds, i + 1, want - n - |next|, waits));
      if waits && !rounds(i).ready {
        return;
      }
      var c := Chunk(rounds(i), want - n);
      if c == [] {
        dry := true;
        return;
      }
      CopyTo(buf, n, c);
      got := got + c;
      n := n + |c|;
      i := i + 1;
    }
    GatherEnds(rounds, i, want - n, waits);
    AfterTwice(got, [], Gather(rounds, i, want - n, waits));
  }

  /** unix_serial_read: the buffer starts with what the rounds delivered, in
      order; -1 only if the port is closed or nothing was wanted or the first
      wait timed out, and 0 if the first read brought nothing. */
  method ReadPort(port: Port, buf: array<byte>, len: int, mtimeout: int, rounds: nat -> Round) returns (rc: int)
    requires len <= buf.Length
    modifies buf
    ensures !port.isOpen || port.s.None? ==> rc == -1 && buf[..] == old(buf[..])
    ensures port.isOpen && port.s.Some? ==>
              var (data, end) := Gather(rounds, 0, if len < 0 then 0 else len, mtimeout > 0);
              && rc == (if data == [] && !end.Dry? then -1 else |data|)
              && |data| <= buf.Length && buf[..|data|] == data && buf[|data|..] == old(buf[|data|..])
  {
    if !port.isOpen {
      return -1;
    }
    if port.s.None? {
      return -1;
    }
    hide Gather;
    var readLen, dry := ReadRounds(buf, if len < 0 then 0 else len, mtimeout > 0, rounds);
    if dry {
      return readLen;
    }
    if readLen <= 0 {
      return -1;
    }
    return readLen;
  }

  /** serial_manger_t. */
  class Manager {
    const t: Port
    var refcount: int
    var opencount: int
    ghost var stuck: bool

    constructor (t: Port)
      ensures this.t == t && refcount == 1 && opencount == 0 && !stuck
    {
      this.t, refcount, opencount, stuck := t, 1, 0, false;
    }

    ghost function View(): Reg.Manager
      reads this, t
    {
      Reg.Manager(t.device, t.line, t.shareMode, t.isOpen, t.s, refcount, opencount, stuck)
    }

    /** serial_close, once the manager is found: one opening less, and the port is
        closed with the last. */
    method CloseOnce(restoreOk: bool) returns (rc: int)
      modifies this`opencount, this`stuck, t
      ensures (View(), rc) == Reg.CloseManager(old(View()), restoreOk)
    {
      if opencount > 0 {
        opencount := opencount - 1;
      }
      rc := 0;
      if opencount == 0 {
        ghost var had := t.s.Some?;
        rc := t.Close(restoreOk);
        stuck := if had then !restoreOk else stuck;
      }
    }
  }

  /** The managers of the list and their ports, in order, are those of the state. */
  ghost predicate Linked(mgrs: seq<Manager>, ports: seq<Port>, st: seq<Reg.Manager>)
    reads set m | m in mgrs
    reads set p | p in ports
  {
    && |mgrs| == |ports| == |st|
    && forall i :: 0 <= i < |mgrs| ==> mgrs[i].t == ports[i] && mgrs[i].View() == st[i]
  }

  lemma OutFacts<T>(s: seq<T>, k: nat)
    requires NoDup(s) && k < |s|
    ensures NoDup(Out(s, k)) && |Out(s, k)| == |s| - 1 && s[k] !in Out(s, k)
    ensures forall i :: 0 <= i < k ==> Out(s, k)[i] == s[i]
    ensures forall i :: k < i < |s| ==> Out(s, k)[i - 1] == s[i]
  {
    var t := Out(s, k);
    forall i | 0 <= i < |t| ensures t[i] == s[if i < k then i else i + 1] {
    }
  }

  /** Before the manager at place `k` is changed: the others have nothing in
      common with it. */
  lemma Isolate(mgrs: seq<Manager>, ports: seq<Port>, st: seq<Reg.Manager>, k: nat)
    requires Linked(mgrs, ports, st) && NoDup(mgrs) && NoDup(ports) && k < |mgrs|
    ensures Linked(Out(mgrs, k), Out(ports, k), Out(st, k))
    ensures mgrs[k].t == ports[k] && mgrs[k].View() == st[k]
    ensures mgrs[k] !in Out(mgrs, k) && ports[k] !in Out(ports, k)
  {
    OutFacts(mgrs, k);
    OutFacts(ports, k);
    var ms, ps, left := Out(mgrs, k), Out(ports, k), Out(st, k);
    forall i | 0 <= i < |ms| ensures ms[i].t == ps[i] && ms[i].View() == left[i] {
      var j := if i < k then i else i + 1;
      assert ms[i] == mgrs[j] && ps[i] == ports[j] && left[i] == st[j];
    }
  }

  /** After it was changed. */
  lemma Restore(mgrs: seq<Manager>, ports: seq<Port>, st: seq<Reg.Manager>, k: nat, m: Reg.Manager)
    requires k < |mgrs| == |ports| == |st| && Linked(Out(mgrs, k), Out(ports, k), Out(st, k))
    requires mgrs[k].t == ports[k] && mgrs[k].View() == m
    ensures Linked(mgrs, ports, st[k := m])
  {
    forall i | 0 <= i < |mgrs| ensures mgrs[i].t == ports[i] && mgrs[i].View() == st[k := m][i] {
      if i != k {
        var j := if i < k then i else i - 1;
        assert Out(mgrs, k)[j] == mgrs[i] && Out(ports, k)[j] == ports[i] && Out(st, k)[j] == st[i];
      }
    }
  }

  class Registry {
    var mgrs: seq<Manager>
    ghost var ports: seq<Port>
    ghost var model: Reg.State

    ghost function Mgrs(): set<Manager>
      reads this
    {
      set m | m in mgrs
    }

    ghost function Ports(): set<Port>
      reads this
    {
      set p | p in ports
    }

    ghost predicate Valid()
      reads this, Mgrs(), Ports()
    {
      Reg.Inv(model) && Linked(mgrs, ports, model.mgrs) && NoDup(mgrs) && NoDup(ports)
    }

    constructor ()
      ensures Valid() && model == Reg.INITIAL && mgrs == []
    {
      mgrs, ports, model := [], [], Reg.INITIAL;
    }

    /** find_serial: the manager of that name, if any. */
    method FindSerial(device: string) returns (sm: Manager?, ghost k: nat)
      requires Valid()
      ensures sm == null <==> Reg.Find(model.mgrs, device).None?
      ensures sm != null ==> Reg.Find(model.mgrs, device) == Some(k)
      ensures sm != null ==> k < |mgrs| == |ports| == |model.mgrs| && sm == mgrs[k] && sm.View() == model.mgrs[k]
    {
      var i := 0;
      k := 0;
      while i < |mgrs|
        invariant 0 <= i <= |mgrs|
        invariant forall j :: 0 <= j < i ==> model.mgrs[j].device != device
      {
        assert mgrs[i].View() == model.mgrs[i];
        if mgrs[i].t.device == device {
          Reg.FindUnique(model.mgrs, device, i);
          return mgrs[i], i;
        }
        i := i + 1;
      }
      sm := null;
    }

    /** serial_new: the port of the device, shared or new; null when it is taken. */
    method New(index: nat, line: Reg.Line, share: int) returns (ctx: Port?)
      requires Valid()
      requires Reg.Find(model.mgrs, Reg.DevName(index)).Some? || Reg.KnownParity(line.parity)
      modifies this, Mgrs(), Ports()
      ensures Valid() && model == Reg.New(old(model), index, line, share).0
      ensures ctx != null <==> Reg.New(old(model), index, line, share).1.Some?
      ensures ctx != null ==> Registered(ctx) && ctx.device == Reg.DevName(index)
      ensures ctx != null ==>
                if old(Reg.Find(model.mgrs, Reg.DevName(index)).Some?) then ctx in old(ports) else fresh(ctx)
    {
      hide Reg.Inv, Linked;
      Reg.NewInv(model, index, line, share);
      ghost var next := Reg.New(model, index, line, share);
      var device := Reg.DevName(index);
      ghost var k;
      var sm: Manager?;
      sm, k := FindSerial(device);
      if sm != null {
        if share == 0 || sm.t.shareMode == 0 {
          return null;
        }
        if sm.t.line != line {
          return null;
        }
        ghost var h := Reg.Handle(device, line, share);
        assert With(k, model.mgrs[k].(refcount := model.mgrs[k].refcount + 1), [h] + model.handles) == next.0;
        SamePorts(k);
        Retain(sm, k, h);
        return sm.t;
      }
      var t := new Port(device, line, share);
      assert Added(t) == next.0;
      Enlist(t);
      return t;
    }

    lemma SamePorts(k: nat)
      requires Valid() && k < |mgrs|
      ensures |mgrs| == |ports| == |model.mgrs| && mgrs[k].t == ports[k]
    {
    }

    /** One more caller shares the port. */
    method Retain(sm: Manager, ghost k: nat, ghost h: Reg.Handle)
      requires Valid() && k < |mgrs| == |ports| == |model.mgrs| && sm == mgrs[k]
      requires Reg.Inv(With(k, model.mgrs[k].(refcount := model.mgrs[k].refcount + 1), [h] + model.handles))
      modifies this`model, sm
      ensures Valid() && ports == old(ports)
      ensures model == old(With(k, model.mgrs[k].(refcount := model.mgrs[k].refcount + 1), [h] + model.handles))
    {
      hide Reg.Inv, Linked;
      Isolate(mgrs, ports, model.mgrs, k);
      ghost var next := With(k, model.mgrs[k].(refcount := model.mgrs[k].refcount + 1), [h] + model.handles);
      assert sm.View() == model.mgrs[k];
      sm.refcount := sm.refcount + 1;
      Restore(mgrs, ports, model.mgrs, k, next.mgrs[k]);
      model := next;
    }

    ghost function With(k: nat, m: Reg.Manager, handles: seq<Reg.Handle>): Reg.State
      requires k < |model.mgrs|
      reads this
    {
      model.(mgrs := model.mgrs[k := m], handles := handles)
    }

    /** add_serial: a manager for a new port, at the front. */
    method Enlist(t: Port)
      requires Valid() && t !in ports && !t.isOpen && t.s.None?
      requires Reg.Inv(Added(t))
      modifies this
      ensures Valid() && model == old(Added(t))
      ensures fresh(mgrs[..1]) && mgrs == mgrs[..1] + old(mgrs) && |mgrs| == |old(mgrs)| + 1 &&
              ports == [t] + old(ports)
    {
      hide Reg.Inv, Linked, NoDup;
      ghost var next := Added(t);
      var sm := new Manager(t);
      LinkedWith(mgrs, ports, model.mgrs, sm, next.mgrs[0]);
      NoDupWith(mgrs, sm);
      NoDupWith(ports, t);
      model := next;
      mgrs := [sm] + mgrs;
      ports := [t] + ports;
    }

    ghost function Added(t: Port): Reg.State
      reads this
    {
      model.(mgrs := [Reg.Manager(t.device, t.line, t.shareMode, false, None, 1, 0, false)] + model.mgrs,
             handles := [Reg.Handle(t.device, t.line, t.shareMode)] + model.handles)
    }

    /** A port that belongs to a manager of the list. */
    ghost predicate Registered(ctx: Port)
      reads this
    {
      ctx in ports
    }

    /** Looking a live port up by its own name leads back to it. */
    lemma Owner(ctx: Port, k: nat)
      requires Valid() && Registered(ctx) && k < |mgrs| && Reg.Find(model.mgrs, ctx.device) == Some(k)
      ensures mgrs[k].t == ctx == ports[k]
    {
      var i :| 0 <= i < |ports| && ports[i] == ctx;
      assert mgrs[i].View() == model.mgrs[i];
      Reg.FindUnique(model.mgrs, ctx.device, i);
    }

    /** serial_open. */
    method Open(ctx: Port, sys: Reg.OpenAnswer) returns (rc: int)
      requires Valid() && Reg.FreshFd(model, sys)
      requires Reg.Find(model.mgrs, ctx.device).Some? ==> Registered(ctx)
      modifies this`model, Mgrs(), Ports()
      ensures Valid() && Reg.Result(model, rc) == Reg.Open(old(model), ctx.device, sys)
      ensures rc == 0 <==> old(Reg.Find(model.mgrs, ctx.device).Some?) && (old(ctx.isOpen) || sys.Opened?)
    {
      ghost var k;
      var sm: Manager?;
      sm, k := FindSerial(ctx.device);
      if sm == null {
        return -1;
      }
      Owner(ctx, k);
      SerialUse.OpenExactly(model, ctx.device, sys);
      SerialUse.OpenInUse(model, k);
      Reg.OpenInv(model, ctx.device, sys);
      rc := OpenFound(sm, k, sys);
    }

    /** The rest of serial_open, with the manager found. */
    method OpenFound(sm: Manager, ghost k: nat, sys: Reg.OpenAnswer) returns (rc: int)
      requires Valid() && k < |mgrs| == |ports| == |model.mgrs| && sm == mgrs[k]
      requires Reg.Find(model.mgrs, sm.t.device) == Some(k) && Reg.Inv(Reg.Open(model, sm.t.device, sys).st)
      modifies this`model, sm, sm.t
      ensures Valid() && Reg.Result(model, rc) == Reg.Open(old(model), sm.t.device, sys)
    {
      hide Reg.Inv, Linked;
      Isolate(mgrs, ports, model.mgrs, k);
      assert sm.View() == model.mgrs[k];
      ghost var next := Reg.Open(model, sm.t.device, sys);
      if sm.opencount > 0 {
        sm.opencount := sm.opencount + 1;
        sm.t.isOpen := true;
        rc := 0;
      } else {
        rc := sm.t.Open(sys);
        if rc == 0 {
          sm.opencount := sm.opencount + 1;
          sm.t.isOpen := true;
          sm.stuck := false;
        }
      }
      Restore(mgrs, ports, model.mgrs, k, next.st.mgrs[k]);
      model := next.st;
    }

    /** serial_close. */
    method Close(ctx: Port, restoreOk: bool) returns (rc: int)
      requires Valid() && (Reg.Find(model.mgrs, ctx.device).Some? ==> Registered(ctx))
      modifies this`model, Mgrs(), Ports()
      ensures Valid() && Reg.Result(model, rc) == Reg.Close(old(model), ctx.device, restoreOk)
    {
      ghost var k;
      var sm: Manager?;
      sm, k := FindSerial(ctx.device);
      if sm == null {
        return -1;
      }
      Owner(ctx, k);
      Reg.CloseInv(model, ctx.device, restoreOk);
      rc := CloseFound(sm, k, restoreOk);
    }

    /** The rest of serial_close, with the manager found. */
    method CloseFound(sm: Manager, ghost k: nat, restoreOk: bool) returns (rc: int)
      requires Valid() && k < |mgrs| == |ports| == |model.mgrs| && sm == mgrs[k]
      requires Reg.Find(model.mgrs, sm.t.device) == Some(k) && Reg.Inv(Reg.Close(model, sm.t.device, restoreOk).st)
      modifies this`model, sm, sm.t
      ensures Valid() && Reg.Result(model, rc) == Reg.Close(old(model), sm.t.device, restoreOk)
    {
      hide Reg.Inv, Linked;
      Isolate(mgrs, ports, model.mgrs, k);
      ghost var next := Reg.Close(model, sm.t.device, restoreOk);
      hide Reg.CloseManager, Reg.Find;
      rc := sm.CloseOnce(restoreOk);
      Restore(mgrs, ports, model.mgrs, k, next.st.mgrs[k]);
      model := next.st;
    }

    /** serial_destory of one handle on the port `ctx`. */
    method Destroy(ctx: Port, ghost i: nat, restoreOk: bool)
      requires Valid() && Registered(ctx) && i < |model.handles| && model.handles[i].device == ctx.device
      modifies this, Mgrs(), Ports()
      ensures Valid() && model == Reg.Destroy(old(model), i, restoreOk)
    {
      ghost var k;
      var sm: Manager?;
      sm, k := FindSerial(ctx.device);
      assert model.handles[i] in model.handles;
      if sm == null {
        assert false;
      } else {
        Owner(ctx, k);
        Reg.DestroyInv(model, i, restoreOk);
        LastHandle(sm, k);
        if sm.refcount > 1 {
          Release(sm, k, i, restoreOk);
        } else {
          Drop(sm, k, i, restoreOk);
        }
      }
    }

    lemma LastHandle(sm: Manager, k: nat)
      requires Valid() && k < |mgrs| && sm == mgrs[k]
      ensures sm.refcount == model.mgrs[k].refcount >= 1
    {
      assert sm.View() == model.mgrs[k] && Reg.ManagerInv(model.mgrs[k], model.handles);
    }

    /** A handle goes, the port stays for the others. */
    method Release(sm: Manager, ghost k: nat, ghost i: nat, ghost restoreOk: bool)
      requires Valid() && k < |mgrs| == |ports| == |model.mgrs| && sm == mgrs[k] &&
               sm.refcount == model.mgrs[k].refcount > 1
      requires i < |model.handles| && Reg.Find(model.mgrs, model.handles[i].device) == Some(k)
      requires Reg.Inv(Reg.Destroy(model, i, restoreOk))
      modifies this`model, sm
      ensures Valid() && model == Reg.Destroy(old(model), i, restoreOk)
    {
      hide Reg.Inv, Linked;
      Isolate(mgrs, ports, model.mgrs, k);
      assert sm.View() == model.mgrs[k];
      ghost var next := Reg.Destroy(model, i, restoreOk);
      sm.refcount := sm.refcount - 1;
      Restore(mgrs, ports, model.mgrs, k, next.mgrs[k]);
      model := next;
    }

    /** The last handle goes: the manager leaves the list and the port is closed. */
    method Drop(sm: Manager, ghost k: nat, ghost i: nat, restoreOk: bool)
      requires Valid() && k < |mgrs| == |ports| == |model.mgrs| && sm == mgrs[k] &&
               sm.refcount == model.mgrs[k].refcount == 1
      requires i < |model.handles| && Reg.Find(model.mgrs, model.handles[i].device) == Some(k)
      requires Reg.Inv(Reg.Destroy(model, i, restoreOk))
      modifies this, sm, sm.t
      ensures Valid() && model == Reg.Destroy(old(model), i, restoreOk)
      ensures mgrs == Out(old(mgrs), k) && ports == Out(old(ports), k)
    {
      hide Reg.Inv, Linked, Reg.Find, Reg.Destroy;
      Isolate(mgrs, ports, model.mgrs, k);
      OutFacts(mgrs, k);
      OutFacts(ports, k);
      ghost var next := Reg.Destroy(model, i, restoreOk);
      LastOut(model, i, k, restoreOk);
      sm.refcount := sm.refcount - 1;
      var _ := sm.t.Close(restoreOk);
      Forget(sm, k, next);
    }

    /** list_del of a manager, when the rest of the list is in order. */
    method Forget(sm: Manager, ghost k: nat, ghost next: Reg.State)
      requires k < |mgrs| == |ports| && mgrs[k] == sm && NoDup(mgrs)
      requires Linked(Out(mgrs, k), Out(ports, k), next.mgrs) && NoDup(Out(mgrs, k)) && NoDup(Out(ports, k)) &&
               Reg.Inv(next)
      modifies this
      ensures Valid() && model == next
      ensures mgrs == Out(old(mgrs), k) && ports == Out(old(ports), k)
    {
      hide Reg.Inv, Linked, NoDup, Out;
      mgrs := WithoutManager(mgrs, sm, k);
      ports := Out(ports, k);
      model := next;
    }
  }

  lemma NoDupWith<T>(s: seq<T>, x: T)
    requires NoDup(s) && x !in s
    ensures NoDup([x] + s)
  {
  }

  lemma LastOut(st: Reg.State, i: nat, k: nat, restoreOk: bool)
    requires i < |st.handles| && Reg.Find(st.mgrs, st.handles[i].device) == Some(k) && k < |st.mgrs|
    requires st.mgrs[k].refcount == 1
    ensures Reg.Destroy(st, i, restoreOk).mgrs == Out(st.mgrs, k)
  {
  }

  /** list_del of the manager `sm`. */
  function WithoutManager(mgrs: seq<Manager>, sm: Manager, ghost k: nat): (rest: seq<Manager>)
    requires k < |mgrs| && mgrs[k] == sm && NoDup(mgrs)
    ensures rest == Out(mgrs, k)
  {
    if mgrs[0] == sm then mgrs[1..] else [mgrs[0]] + WithoutManager(mgrs[1..], sm, k - 1)
  }

  lemma LinkedWith(mgrs: seq<Manager>, ports: seq<Port>, st: seq<Reg.Manager>, sm: Manager, m: Reg.Manager)
    requires Linked(mgrs, ports, st) && sm.View() == m
    ensures Linked([sm] + mgrs, [sm.t] + ports, [m] + st)
  {
    var ms, ps, all := [sm] + mgrs, [sm.t] + ports, [m] + st;
    forall i | 0 <= i < |ms| ensures ms[i].t == ps[i] && ms[i].View() == all[i] {
      if i > 0 {
        assert ms[i] == mgrs[i - 1] && ps[i] == ports[i - 1] && all[i] == st[i - 1];
      }
    }
  }
}
