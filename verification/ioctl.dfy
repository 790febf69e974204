/** The control calls of `src/ioctl.rs` that carry logic of their own. Each
    setter is modelled as the request it hands to the kernel (or the local
    error it returns before any call); each getter as a function of the
    kernel's reply. Most numeric request codes come from the C library (two
    are written inline in the source); all are represented only by the
    constructor of `Request`. */
module Ioctl {
  import opened Wrappers
  import opened Bytes
  import opened Bsd

  /** An OS error number, surfaced verbatim. */
  datatype Errno = Errno(code: int)

  /** `ENODEV` and `EINVAL` as numbered in the BSD and Darwin `errno.h`. */
  const NODEV: Errno := Errno(19)
  const INVAL: Errno := Errno(22)

  /** Size of the `ifr_name` field of `struct ifreq`. */
  const IFNAMSIZ: nat := 16

  /** A control call as issued to the kernel, with its argument. */
  datatype Request =
    | SetBufferLen(len: uint32)
    | SetInterface(ifrName: seq<uint8>)
    | SetDataLinkLayer(dlt: uint32)
    | SetImmediate(flag: uint32)

  /** The `ifr_name` field for an interface name given as its bytes: the
      name followed by zero padding, or `NODEV` when the name leaves no room
      for a terminator. */
  function PackIfName(name: seq<uint8>): (r: Result<seq<uint8>, Errno>)
    ensures r.Failure? <==> |name| >= IFNAMSIZ
    ensures r.Failure? ==> r.error == NODEV
    ensures r.Success? ==> |r.value| == IFNAMSIZ && r.value[..|name|] == name
    ensures r.Success? ==> forall k :: |name| <= k < IFNAMSIZ ==> r.value[k] == 0
  {
    if |name| >= IFNAMSIZ then Failure(NODEV)
    else Success(name + Zeros(IFNAMSIZ - |name|))
  }

  /** `ioctl_biocsetif`: the bind request, or the local error returned
      before any control call is issued. */
  function BindRequest(name: seq<uint8>): (r: Result<Request, Errno>)
    ensures r.Failure? <==> |name| >= IFNAMSIZ
    ensures r.Failure? ==> r.error == NODEV
    ensures r.Success? ==> r.value.SetInterface? && |r.value.ifrName| == IFNAMSIZ
    ensures r.Success? ==> r.value.ifrName[..|name|] == name
    ensures r.Success? ==> forall k :: |name| <= k < IFNAMSIZ ==> r.value.ifrName[k] == 0
    ensures r.Success? ==> r.value == SetInterface(PackIfName(name).value)
  {
    match PackIfName(name)
    case Failure(e) => Failure(e)
    case Success(field) => Success(SetInterface(field))
  }

  /** The index of the first zero byte of `field` at or after `from`. */
  function FirstZero(field: seq<uint8>, from: nat): (r: Option<nat>)
    requires from <= |field|
    ensures r.Some? ==> from <= r.value < |field| && field[r.value] == 0
    ensures r.Some? ==> forall k :: from <= k < r.value ==> field[k] != 0
    ensures r.None? ==> forall k :: from <= k < |field| ==> field[k] != 0
    decreases |field| - from
  {
    if from == |field| then None
    else if field[from] == 0 then Some(from)
    else FirstZero(field, from + 1)
  }

  /** Each byte widened to the character with that code point (`as u8 as char`). */
  function Widen(bytes: seq<uint8>): (s: string)
    ensures |s| == |bytes|
    ensures forall k :: 0 <= k < |s| ==> s[k] as int == bytes[k]
  {
    seq(|bytes|, k requires 0 <= k < |bytes| => bytes[k] as char)
  }

  /** The interface name held in an `ifr_name` field: the bytes before the
      first zero byte, or `INVAL` when the field has no zero byte. */
  function ParseIfName(field: seq<uint8>): (r: Result<string, Errno>)
    requires |field| == IFNAMSIZ
    ensures r.Failure? <==> forall k :: 0 <= k < IFNAMSIZ ==> field[k] != 0
    ensures r.Failure? ==> r.error == INVAL
    ensures r.Success? ==> |r.value| < IFNAMSIZ && field[|r.value|] == 0
    ensures r.Success? ==> forall k :: 0 <= k < |r.value| ==> field[k] != 0 && r.value[k] as int == field[k]
  {
    match FirstZero(field, 0)
    case None => Failure(INVAL)
    case Some(n) => Success(Widen(field[..n]))
  }

  /** `ioctl_biocgetif`: a failed call's error passes through; a returned
      field is parsed. */
  function GetInterfaceName(reply: Result<seq<uint8>, Errno>): (r: Result<string, Errno>)
    requires reply.Success? ==> |reply.value| == IFNAMSIZ
    ensures reply.Failure? ==> r == Failure(reply.error)
    ensures reply.Success? ==> r == ParseIfName(reply.value)
    ensures r.Success? ==> forall k :: 0 <= k < |r.value| ==> r.value[k] as int < 0x100
  {
    match reply
    case Failure(e) => Failure(e)
    case Success(field) => ParseIfName(field)
  }

  /** Packing then parsing returns any name that fits and holds no zero
      byte, byte for byte. */
  lemma IfNameRoundTrip(name: seq<uint8>)
    requires |name| < IFNAMSIZ
    requires forall k :: 0 <= k < |name| ==> name[k] != 0
    ensures PackIfName(name).Success?
    ensures ParseIfName(PackIfName(name).value) == Success(Widen(name))
  {
    var field := PackIfName(name).value;
    assert field[|name|] == 0;
    var n := FirstZero(field, 0);
    if n.None? {
      assert false;
    }
    assert field[..|name|] == name;
  }

  /** `ioctl_biocimmediate`: the flag word is 1 for `true` and 0 for `false`. */
  function ImmediateRequest(value: bool): (q: Request)
    ensures q.SetImmediate?
    ensures value <==> q.flag == 1
    ensures !value <==> q.flag == 0
  {
    SetImmediate(if value then 1 else 0)
  }

  /** `ioctl_biocsdlt`: the raw value is handed to the kernel unchanged. */
  function SetDltRequest(value: DataLinkLayer): (q: Request)
    ensures q.SetDataLinkLayer?
    ensures DataLinkLayer.FromRaw(q.dlt) == value
  {
    SetDataLinkLayer(value.raw)
  }

  /** `ioctl_biocgdlt`: the kernel's raw value is wrapped unchanged. */
  function GetDlt(reply: Result<uint32, Errno>): (r: Result<DataLinkLayer, Errno>)
    ensures r.Success? <==> reply.Success?
    ensures r.Success? ==> r.value.AsRaw() == reply.value
    ensures r.Failure? ==> r.error == reply.error
  {
    match reply
    case Failure(e) => Failure(e)
    case Success(raw) => Success(DataLinkLayer.FromRaw(raw))
  }

  /** Setting a data-link layer and reading the same raw value back gives
      the layer that was set. */
  lemma DltSetGetRoundTrip(value: DataLinkLayer)
    ensures GetDlt(Success(SetDltRequest(value).dlt)) == Success(value)
  {
  }
}
