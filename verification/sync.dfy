/** `src/bsd/sync.rs` apart from the packet decoder: acquiring a BPF
    device, configuring it on construction, and handing a read buffer to
    the decoder. The operating system is an oracle passed as a parameter,
    and every call issued to it is recorded in a trace. This lets the
    order of the calls and the abort-on-first-failure rule be stated. */
module Sync {
  import opened Wrappers
  import opened Bytes
  import opened Ioctl
  import opened Frames

  /** Open flags, passed to the OS unchanged. */
  datatype OFlags = OFlags(bits: uint32)

  /** `O_RDWR` as numbered in the BSD and Darwin `fcntl.h`. */
  const RDWR: OFlags := OFlags(2)

  /** An open file descriptor as returned by the OS. */
  datatype Fd = Fd(raw: int)

  /** A BPF device that was opened and bound to an interface. */
  datatype BpfSocket = BpfSocket(fd: Fd)

  /** One call issued to the OS. */
  datatype Call =
    | Open(path: string, flags: OFlags)
    | Control(fd: Fd, req: Request)

  /** The OS as seen by this code: the outcome of opening a path, and the
      outcome of a control request on a descriptor. */
  datatype Os = Os(open: (string, OFlags) -> Result<Fd, Errno>, control: (Fd, Request) -> Result<(), Errno>)

  /** The outcome of an operation together with the calls it issued, in order. */
  datatype Run<T> = Run(result: Result<T, Errno>, trace: seq<Call>)

  /** The error a call got back from the OS, if it failed. */
  function ErrorOf(os: Os, c: Call): Option<Errno> {
    match c
    case Open(path, flags) =>
      if os.open(path, flags).Failure? then Some(os.open(path, flags).error) else None
    case Control(fd, req) =>
      if os.control(fd, req).Failure? then Some(os.control(fd, req).error) else None
  }

  /** How many device nodes are tried. */
  const DeviceCount: nat := 100

  function Digit(d: nat): (c: char)
    requires d < 10
    ensures '0' <= c <= '9' && c as int - '0' as int == d
  {
    ('0' as int + d) as char
  }

  /** The path of candidate device `i`: `/dev/bpf` followed by `i` as two
      decimal digits, zero-padded. */
  function DevicePath(i: nat): (p: string)
    requires i < DeviceCount
    ensures |p| == 10 && p[..8] == "/dev/bpf"
    ensures '0' <= p[8] <= '9' && '0' <= p[9] <= '9'
    ensures 10 * (p[8] as int - '0' as int) + (p[9] as int - '0' as int) == i
  {
    "/dev/bpf" + [Digit(i / 10), Digit(i % 10)]
  }

  /** Reads a candidate index back from a device path, if the path has that shape. */
  function DeviceIndex(p: string): (r: Option<nat>)
    ensures r.Some? ==> r.value < DeviceCount
  {
    if |p| == 10 && p[..8] == "/dev/bpf" && '0' <= p[8] <= '9' && '0' <= p[9] <= '9' then
      Some(10 * (p[8] as int - '0' as int) + (p[9] as int - '0' as int))
    else None
  }

  /** Every candidate path reads back as its own index. */
  lemma DevicePathRoundTrip(i: nat)
    requires i < DeviceCount
    ensures DeviceIndex(DevicePath(i)) == Some(i)
  {
  }

  /** Distinct candidates are distinct paths, so no device is tried twice. */
  lemma DevicePathInjective(i: nat, j: nat)
    requires i < DeviceCount && j < DeviceCount
    ensures DevicePath(i) == DevicePath(j) <==> i == j
  {
    if DevicePath(i) == DevicePath(j) {
      DevicePathRoundTrip(i);
      DevicePathRoundTrip(j);
    }
  }

  /** Whether the OS refuses to open candidate `k`. */
  predicate Refused(os: Os, flags: OFlags, k: nat)
    requires k < DeviceCount
  {
    os.open(DevicePath(k), flags).Failure?
  }

  /** `open_device`: opens the candidates `/dev/bpf00` to `/dev/bpf99` in
      order and stops at the first that opens. If none opens, the result is
      the error of the last attempt, so the initial `NODEV` is never
      returned unless the OS itself returned it. */
  method OpenDevice(os: Os, flags: OFlags) returns (result: Result<Fd, Errno>, trace: seq<Call>)
    ensures 1 <= |trace| <= DeviceCount
    ensures forall k :: 0 <= k < |trace| ==> trace[k] == Open(DevicePath(k), flags)
    ensures forall k :: 0 <= k < |trace| - 1 ==> Refused(os, flags, k)
    ensures result == os.open(DevicePath(|trace| - 1), flags)
    ensures result.Failure? ==> |trace| == DeviceCount
  {
    var err := NODEV;
    trace := [];
    var i := 0;
    while i < DeviceCount
      invariant i <= DeviceCount && |trace| == i
      invariant forall k :: 0 <= k < i ==> trace[k] == Open(DevicePath(k), flags) && Refused(os, flags, k)
      invariant 0 < i ==> os.open(DevicePath(i - 1), flags) == Failure(err)
    {
      trace := trace + [Open(DevicePath(i), flags)];
      var res := os.open(DevicePath(i), flags);
      if res.Success? {
        return res, trace;
      }
      err := res.error;
      i := i + 1;
    }
    result := Failure(err);
  }

  /** The steps of `open_with_flags` after the device is open. First the
      buffer length is set, but only when one is given. Then the interface
      is bound. The first failure aborts, and later steps are skipped. */
  function Configure(os: Os, fd: Fd, interface: seq<uint8>, bufferLen: Option<uint32>): (r: Run<BpfSocket>)
    ensures |r.trace| <= 2
    ensures forall k :: 0 <= k < |r.trace| ==> r.trace[k].Control? && r.trace[k].fd == fd
    ensures bufferLen.None? ==> forall k :: 0 <= k < |r.trace| ==> r.trace[k].req.SetInterface?
    ensures bufferLen.Some? ==> |r.trace| >= 1 && r.trace[0] == Control(fd, SetBufferLen(bufferLen.value))
    ensures OnlyLenThenBind(r.trace)
    ensures r.result.Success? <==>
      && (bufferLen.Some? ==> os.control(fd, SetBufferLen(bufferLen.value)).Success?)
      && |interface| < IFNAMSIZ
      && os.control(fd, SetInterface(PackIfName(interface).value)).Success?
    ensures r.result.Success? ==> r.result.value == BpfSocket(fd)
    ensures r.result.Success? ==> 0 < |r.trace| && r.trace[|r.trace| - 1].req.SetInterface?
    ensures forall k :: 0 <= k < |r.trace| && r.trace[k].req.SetInterface? ==>
      |interface| < IFNAMSIZ && r.trace[k].req.ifrName == PackIfName(interface).value
  {
    var setLen :=
      match bufferLen
      case None => Run(Success(()), [])
      case Some(n) => Run(os.control(fd, SetBufferLen(n)), [Control(fd, SetBufferLen(n))]);
    if setLen.result.Failure? then Run(Failure(setLen.result.error), setLen.trace)
    else
      match BindRequest(interface)
      case Failure(e) => Run(Failure(e), setLen.trace)
      case Success(bind) =>
        match os.control(fd, bind)
        case Failure(e) => Run(Failure(e), setLen.trace + [Control(fd, bind)])
        case Success(_) => Run(Success(BpfSocket(fd)), setLen.trace + [Control(fd, bind)])
  }

  /** A trace with no control requests in it. */
  predicate OnlyOpens(trace: seq<Call>) {
    forall k :: 0 <= k < |trace| ==> trace[k].Open?
  }

  /** Call `k` of `trace` sets the buffer length. */
  predicate SetsBufferLen(trace: seq<Call>, k: nat) {
    k < |trace| && trace[k].Control? && trace[k].req.SetBufferLen?
  }

  /** Call `k` of `trace` binds an interface. */
  predicate Binds(trace: seq<Call>, k: nat) {
    k < |trace| && trace[k].Control? && trace[k].req.SetInterface?
  }

  /** Every buffer-length request precedes every bind, and carries the
      length that was asked for, so there is none when no length was given. */
  predicate LenBeforeBind(trace: seq<Call>, bufferLen: Option<uint32>) {
    && (forall i, j :: 0 <= i < |trace| && 0 <= j < |trace| && SetsBufferLen(trace, i) && Binds(trace, j) ==> i < j)
    && (forall i :: 0 <= i < |trace| && SetsBufferLen(trace, i) ==> bufferLen.Some? && trace[i].req.len == bufferLen.value)
  }

  /** The only control requests are buffer-length requests and binds, and
      of any two control requests the earlier sets the buffer length and the
      later binds: so there is at most one of each, the length first. */
  predicate OnlyLenThenBind(trace: seq<Call>) {
    && (forall k :: 0 <= k < |trace| && trace[k].Control? ==> SetsBufferLen(trace, k) || Binds(trace, k))
    && (forall i, j :: 0 <= i < j < |trace| && trace[i].Control? && trace[j].Control? ==>
          SetsBufferLen(trace, i) && Binds(trace, j))
  }

  /** Every control request but the last one issued succeeded. */
  predicate ControlsSucceedBeforeLast(os: Os, trace: seq<Call>) {
    forall k :: 0 <= k < |trace| - 1 && trace[k].Control? ==> ErrorOf(os, trace[k]).None?
  }

  /** A failure is the error the last call got back, or the local `NODEV`
      for a name too long to bind, returned after every call issued
      succeeded and with no bind issued. */
  predicate FailureExplained(os: Os, trace: seq<Call>, interface: seq<uint8>, result: Result<BpfSocket, Errno>) {
    result.Failure? ==>
      || (0 < |trace| && ErrorOf(os, trace[|trace| - 1]) == Some(result.error))
      || (&& result.error == NODEV && |interface| >= IFNAMSIZ
          && (forall k :: 0 <= k < |trace| ==> !Binds(trace, k))
          && (0 < |trace| ==> ErrorOf(os, trace[|trace| - 1]).None?))
  }

  lemma ConfigureLenBeforeBind(os: Os, fd: Fd, interface: seq<uint8>, bufferLen: Option<uint32>)
    ensures LenBeforeBind(Configure(os, fd, interface, bufferLen).trace, bufferLen)
  {
  }

  lemma ConfigureAborts(os: Os, fd: Fd, interface: seq<uint8>, bufferLen: Option<uint32>)
    ensures var r := Configure(os, fd, interface, bufferLen);
      && ControlsSucceedBeforeLast(os, r.trace)
      && FailureExplained(os, r.trace, interface, r.result)
      && (r.result.Success? ==> forall k :: 0 <= k < |r.trace| ==> ErrorOf(os, r.trace[k]).None?)
  {
  }

  /** Putting opens in front of a trace shifts its control requests. */
  lemma AfterOpens(a: seq<Call>, b: seq<Call>, k: nat)
    requires OnlyOpens(a) && k < |a| + |b|
    ensures SetsBufferLen(a + b, k) <==> |a| <= k && SetsBufferLen(b, k - |a|)
    ensures Binds(a + b, k) <==> |a| <= k && Binds(b, k - |a|)
    ensures (a + b)[k].Control? ==> |a| <= k && (a + b)[k] == b[k - |a|]
  {
    if k < |a| {
      assert (a + b)[k] == a[k];
    }
  }

  /** Opens in front of a trace keep its buffer-length requests before its bind. */
  lemma LenBeforeBindAfterOpens(a: seq<Call>, b: seq<Call>, bufferLen: Option<uint32>)
    requires OnlyOpens(a) && LenBeforeBind(b, bufferLen)
    ensures LenBeforeBind(a + b, bufferLen)
  {
    var t := a + b;
    forall i, j | 0 <= i < |t| && 0 <= j < |t| && SetsBufferLen(t, i) && Binds(t, j)
      ensures i < j
    {
      AfterOpens(a, b, i);
      AfterOpens(a, b, j);
    }
    forall i | 0 <= i < |t| && SetsBufferLen(t, i)
      ensures bufferLen.Some? && t[i].req.len == bufferLen.value
    {
      AfterOpens(a, b, i);
    }
  }

  /** Opens in front of a trace add no control requests. */
  lemma OnlyLenThenBindAfterOpens(a: seq<Call>, b: seq<Call>)
    requires OnlyOpens(a) && OnlyLenThenBind(b)
    ensures OnlyLenThenBind(a + b)
  {
    var t := a + b;
    forall k | 0 <= k < |t| && t[k].Control?
      ensures SetsBufferLen(t, k) || Binds(t, k)
    {
      AfterOpens(a, b, k);
    }
    forall i, j | 0 <= i < j < |t| && t[i].Control? && t[j].Control?
      ensures SetsBufferLen(t, i) && Binds(t, j)
    {
      AfterOpens(a, b, i);
      AfterOpens(a, b, j);
    }
  }

  /** Opens in front of a trace keep its abort-on-first-failure shape. */
  lemma AbortsAfterOpens(os: Os, a: seq<Call>, b: seq<Call>, interface: seq<uint8>, result: Result<BpfSocket, Errno>)
    requires OnlyOpens(a) && (0 < |a| ==> ErrorOf(os, a[|a| - 1]).None?)
    requires ControlsSucceedBeforeLast(os, b) && FailureExplained(os, b, interface, result)
    requires result.Success? ==> forall k :: 0 <= k < |b| ==> ErrorOf(os, b[k]).None?
    ensures ControlsSucceedBeforeLast(os, a + b) && FailureExplained(os, a + b, interface, result)
    ensures result.Success? ==> forall k :: 0 <= k < |a + b| && (a + b)[k].Control? ==> ErrorOf(os, (a + b)[k]).None?
  {
    var t := a + b;
    forall k | 0 <= k < |t| && t[k].Control?
      ensures |a| <= k && t[k] == b[k - |a|]
    {
      AfterOpens(a, b, k);
    }
    forall k | 0 <= k < |t|
      ensures Binds(t, k) ==> |a| <= k && Binds(b, k - |a|)
    {
      AfterOpens(a, b, k);
    }
    if 0 < |b| {
      assert t[|t| - 1] == b[|b| - 1];
    }
  }

  /** The calls of a construction, as seen from outside. Opens come
      first, and call `k`, when it is an open, opens candidate `k` with
      `flags`. A call is followed by an open exactly when it failed: a
      refused candidate by the next candidate, an accepted one by control
      requests, and a failed control request by nothing. The last call is a
      refused open only when every candidate was refused. */
  predicate Probed(os: Os, flags: OFlags, trace: seq<Call>) {
    && (forall k :: 0 <= k < |trace| && trace[k].Open? ==> k < DeviceCount && trace[k] == Open(DevicePath(k), flags))
    && (forall i, j :: 0 <= i < j < |trace| && trace[j].Open? ==> trace[i].Open?)
    && (forall k :: 0 <= k < |trace| - 1 ==> (ErrorOf(os, trace[k]).Some? <==> trace[k + 1].Open?))
    && (0 < |trace| && trace[|trace| - 1].Open? && ErrorOf(os, trace[|trace| - 1]).Some? ==> |trace| == DeviceCount)
  }

  /** The descriptor an accepted open returned. */
  function Opened(os: Os, c: Call): Fd
    requires c.Open? && ErrorOf(os, c).None?
  {
    os.open(c.path, c.flags).value
  }

  /** The descriptor an accepted open returned is the one used afterwards:
      a requested buffer length is set on it by the very next call, every
      later call is a control request on it, and a constructed socket holds
      it. */
  predicate UsesOpened(os: Os, trace: seq<Call>, bufferLen: Option<uint32>, result: Result<BpfSocket, Errno>) {
    forall k :: 0 <= k < |trace| && trace[k].Open? && ErrorOf(os, trace[k]).None? ==>
      && (bufferLen.Some? ==> k + 1 < |trace| && trace[k + 1] == Control(Opened(os, trace[k]), SetBufferLen(bufferLen.value)))
      && (forall j :: k < j < |trace| ==> trace[j].Control? && trace[j].fd == Opened(os, trace[k]))
      && (result.Success? ==> result.value.fd == Opened(os, trace[k]))
  }

  /** After a probe that ended in an accepted open, calls that start with
      the requested buffer length and all go to the opened descriptor use
      it as `UsesOpened` says. */
  lemma ProbeThenUse(
    os: Os, flags: OFlags, a: seq<Call>, b: seq<Call>, fd: Fd,
    bufferLen: Option<uint32>, result: Result<BpfSocket, Errno>)
    requires 1 <= |a| <= DeviceCount
    requires forall k :: 0 <= k < |a| ==> a[k] == Open(DevicePath(k), flags)
    requires forall k :: 0 <= k < |a| - 1 ==> Refused(os, flags, k)
    requires os.open(DevicePath(|a| - 1), flags) == Success(fd)
    requires forall k :: 0 <= k < |b| ==> b[k].Control? && b[k].fd == fd
    requires bufferLen.Some? ==> 1 <= |b| && b[0] == Control(fd, SetBufferLen(bufferLen.value))
    requires result.Success? ==> result.value.fd == fd
    ensures UsesOpened(os, a + b, bufferLen, result)
  {
    var t := a + b;
    forall k | 0 <= k < |t|
      ensures k < |a| ==> t[k] == a[k]
      ensures |a| <= k ==> t[k] == b[k - |a|] && t[k].Control?
    {
    }
    forall k | 0 <= k < |a| - 1
      ensures ErrorOf(os, t[k]).Some?
    {
      assert Refused(os, flags, k);
    }
  }

  /** A probe in which every open was refused uses no descriptor. */
  lemma ProbeAloneUses(os: Os, flags: OFlags, a: seq<Call>, bufferLen: Option<uint32>, result: Result<BpfSocket, Errno>)
    requires 1 <= |a| <= DeviceCount
    requires forall k :: 0 <= k < |a| ==> a[k] == Open(DevicePath(k), flags)
    requires forall k :: 0 <= k < |a| - 1 ==> Refused(os, flags, k)
    requires os.open(DevicePath(|a| - 1), flags).Failure?
    ensures UsesOpened(os, a, bufferLen, result)
  {
    forall k | 0 <= k < |a|
      ensures ErrorOf(os, a[k]).Some?
    {
      if k < |a| - 1 {
        assert Refused(os, flags, k);
      } else {
        assert a[k] == Open(DevicePath(|a| - 1), flags);
      }
    }
  }

  /** A probe followed by the configuration of the device it opened makes a
      construction trace with the configuration's properties. */
  lemma ProbeThenConfigure(
    os: Os, flags: OFlags, a: seq<Call>, b: seq<Call>,
    interface: seq<uint8>, bufferLen: Option<uint32>, result: Result<BpfSocket, Errno>)
    requires 1 <= |a| <= DeviceCount
    requires forall k :: 0 <= k < |a| ==> a[k] == Open(DevicePath(k), flags)
    requires forall k :: 0 <= k < |a| - 1 ==> Refused(os, flags, k)
    requires ErrorOf(os, a[|a| - 1]).None?
    requires forall k :: 0 <= k < |b| ==> b[k].Control?
    requires LenBeforeBind(b, bufferLen) && ControlsSucceedBeforeLast(os, b)
    requires FailureExplained(os, b, interface, result)
    requires result.Success? ==> forall k :: 0 <= k < |b| ==> ErrorOf(os, b[k]).None?
    ensures Probed(os, flags, a + b)
    ensures LenBeforeBind(a + b, bufferLen)
    ensures FailureExplained(os, a + b, interface, result)
    ensures result.Success? ==> forall k :: 0 <= k < |a + b| && (a + b)[k].Control? ==> ErrorOf(os, (a + b)[k]).None?
  {
    var t := a + b;
    assert OnlyOpens(a);
    forall k | 0 <= k < |t|
      ensures k < |a| ==> t[k] == a[k]
      ensures |a| <= k ==> t[k] == b[k - |a|] && t[k].Control?
    {
    }
    forall k | 0 <= k < |t| - 1
      ensures ErrorOf(os, t[k]).Some? <==> t[k + 1].Open?
    {
      if k < |a| - 1 {
        assert Refused(os, flags, k);
      }
    }
    LenBeforeBindAfterOpens(a, b, bufferLen);
    AbortsAfterOpens(os, a, b, interface, result);
  }

  /** A probe that opened nothing is a construction trace of its own. */
  lemma ProbeAlone(os: Os, flags: OFlags, a: seq<Call>, interface: seq<uint8>, bufferLen: Option<uint32>)
    requires |a| == DeviceCount
    requires forall k :: 0 <= k < |a| ==> a[k] == Open(DevicePath(k), flags)
    requires forall k :: 0 <= k < |a| - 1 ==> Refused(os, flags, k)
    requires os.open(DevicePath(|a| - 1), flags).Failure?
    ensures Probed(os, flags, a)
    ensures LenBeforeBind(a, bufferLen)
    ensures FailureExplained(os, a, interface, Failure(os.open(DevicePath(|a| - 1), flags).error))
  {
    forall k | 0 <= k < |a| - 1
      ensures ErrorOf(os, a[k]).Some?
    {
      assert Refused(os, flags, k);
    }
  }

  /** `BpfSocket::open_with_flags`: acquire a device, then set the buffer
      length if one is given, then bind the interface. The buffer length is
      set strictly before the bind. The first failure aborts and is
      returned unchanged; the one local error is `NODEV` for a name too
      long to bind. The calls after the open go to the descriptor it
      returned, which the socket keeps. A success means every call issued
      on the device succeeded, the last of them the bind of this interface. */
  method OpenWithFlags(os: Os, interface: seq<uint8>, bufferLen: Option<uint32>, flags: OFlags)
    returns (result: Result<BpfSocket, Errno>, trace: seq<Call>)
    ensures 1 <= |trace| && trace[0] == Open(DevicePath(0), flags)
    ensures Probed(os, flags, trace)
    ensures LenBeforeBind(trace, bufferLen) && OnlyLenThenBind(trace)
    ensures FailureExplained(os, trace, interface, result)
    ensures forall k :: 0 <= k < |trace| && Binds(trace, k) ==>
      |interface| < IFNAMSIZ && trace[k].req.ifrName == PackIfName(interface).value
    ensures result.Success? ==>
      && Binds(trace, |trace| - 1)
      && (forall k :: 0 <= k < |trace| && trace[k].Control? ==>
            trace[k].fd == result.value.fd && ErrorOf(os, trace[k]).None?)
    ensures UsesOpened(os, trace, bufferLen, result)
  {
    var dev, opens := OpenDevice(os, flags);
    if dev.Failure? {
      ProbeAlone(os, flags, opens, interface, bufferLen);
      assert OnlyOpens(opens);
      ProbeAloneUses(os, flags, opens, bufferLen, Failure(dev.error));
      return Failure(dev.error), opens;
    }
    var setup := Configure(os, dev.value, interface, bufferLen);
    ConfigureLenBeforeBind(os, dev.value, interface, bufferLen);
    ConfigureAborts(os, dev.value, interface, bufferLen);
    ProbeThenConfigure(os, flags, opens, setup.trace, interface, bufferLen, setup.result);
    assert OnlyOpens(opens);
    OnlyLenThenBindAfterOpens(opens, setup.trace);
    result, trace := setup.result, opens + setup.trace;
    forall k | 0 <= k < |trace| && trace[k].Control?
      ensures trace[k] == setup.trace[k - |opens|]
    {
      AfterOpens(opens, setup.trace, k);
    }
    ProbeThenUse(os, flags, opens, setup.trace, dev.value, bufferLen, result);
  }

  /** `BpfSocket::open`: `open_with_flags` with read-write access. */
  method OpenSocket(os: Os, interface: seq<uint8>, bufferLen: Option<uint32>)
    returns (result: Result<BpfSocket, Errno>, trace: seq<Call>)
    ensures 1 <= |trace| && trace[0] == Open(DevicePath(0), RDWR)
    ensures forall k :: 0 <= k < |trace| && trace[k].Open? ==> trace[k].flags == RDWR
    ensures Probed(os, RDWR, trace) && LenBeforeBind(trace, bufferLen) && OnlyLenThenBind(trace)
    ensures FailureExplained(os, trace, interface, result)
    ensures forall k :: 0 <= k < |trace| && Binds(trace, k) ==>
      |interface| < IFNAMSIZ && trace[k].req.ifrName == PackIfName(interface).value
    ensures result.Success? ==>
      && Binds(trace, |trace| - 1)
      && (forall k :: 0 <= k < |trace| && trace[k].Control? ==>
            trace[k].fd == result.value.fd && ErrorOf(os, trace[k]).None?)
    ensures UsesOpened(os, trace, bufferLen, result)
  {
    result, trace := OpenWithFlags(os, interface, bufferLen, RDWR);
  }

  /** `read_iter`: an iterator over exactly the `bytes` bytes the read
      returned, or the read's error with no iterator. The OS never reports
      more bytes than the buffer holds. */
  function ReadIter(buf: seq<uint8>, read: Result<nat, Errno>): (r: Result<PacketIter, Errno>)
    requires read.Success? ==> read.value <= |buf|
    ensures r.Failure? <==> read.Failure?
    ensures r.Failure? ==> r.error == read.error
    ensures r.Success? ==> |r.value.buf| == read.value && r.value.buf <= buf
  {
    match read
    case Failure(e) => Failure(e)
    case Success(n) => Success(PacketIter(buf[..n]))
  }

  /** Every packet an iterator from `read_iter` yields is a slice of the
      bytes actually read, so no capture reaches past the read count. */
  lemma ReadIterCapturesWithinRead(buf: seq<uint8>, n: nat, fuel: nat)
    requires n <= |buf|
    ensures Slicing(Step)
    ensures var frames := Drain(Step, ReadIter(buf, Success(n)).value.buf, 0, fuel).frames;
      forall i :: 0 <= i < |frames| ==>
        frames[i].start <= frames[i].end <= n && buf[frames[i].start..frames[i].end] == frames[i].packet.capture
  {
    StepSlicing();
    var read := buf[..n];
    DrainLaidOut(Step, read, 0, fuel);
    LaidOutByIndex(read, 0, Drain(Step, read, 0, fuel).frames);
    var frames := Drain(Step, read, 0, fuel).frames;
    forall i | 0 <= i < |frames|
      ensures buf[frames[i].start..frames[i].end] == frames[i].packet.capture
    {
      assert read[frames[i].start..frames[i].end] == buf[frames[i].start..frames[i].end];
    }
  }
}
