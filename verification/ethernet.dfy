/** The link-layer types of `src/lib.rs`: hardware addresses and their
    text form, and the Ethernet header and packet read from the front of
    a capture. */
module Ethernet {
  import opened Wrappers
  import opened Bytes

  /** A hardware address: six bytes. */
  type MacAddress = b: seq<uint8> | |b| == 6 witness [0, 0, 0, 0, 0, 0]

  /** The digits `{:02x}` writes: `0`-`9` and lower-case `a`-`f`. */
  predicate IsHexDigit(c: char) {
    '0' <= c <= '9' || 'a' <= c <= 'f'
  }

  /** The digit for a nibble. */
  function HexDigit(n: nat): (c: char)
    requires n < 16
    ensures IsHexDigit(c)
  {
    if n < 10 then ('0' as int + n) as char else ('a' as int + n - 10) as char
  }

  /** The nibble a digit stands for. */
  function HexValue(c: char): (r: Option<nat>)
    ensures r.Some? <==> IsHexDigit(c)
    ensures r.Some? ==> r.value < 16 && HexDigit(r.value) == c
  {
    if '0' <= c <= '9' then Some(c as int - '0' as int)
    else if 'a' <= c <= 'f' then Some(c as int - 'a' as int + 10)
    else None
  }

  lemma HexValueOfDigit(n: nat)
    requires n < 16
    ensures HexValue(HexDigit(n)) == Some(n)
  {
  }

  /** A byte as `{:02x}` formats it: two digits, the high nibble first. */
  function HexByte(b: uint8): (s: string)
    ensures |s| == 2 && IsHexDigit(s[0]) && IsHexDigit(s[1])
  {
    [HexDigit(b / 16), HexDigit(b % 16)]
  }

  /** The byte two digits spell, if both are digits `{:02x}` writes. */
  function ParseHexByte(s: string): (r: Option<uint8>)
    requires |s| == 2
    ensures r.Some? <==> IsHexDigit(s[0]) && IsHexDigit(s[1])
  {
    match (HexValue(s[0]), HexValue(s[1]))
    case (Some(hi), Some(lo)) => Some(16 * hi + lo)
    case _ => None
  }

  lemma HexByteRoundTrip(b: uint8)
    ensures ParseHexByte(HexByte(b)) == Some(b)
  {
    HexValueOfDigit(b / 16);
    HexValueOfDigit(b % 16);
  }

  lemma ParseHexByteRoundTrip(s: string)
    requires |s| == 2 && ParseHexByte(s).Some?
    ensures HexByte(ParseHexByte(s).value) == s
  {
    var hi := HexValue(s[0]).value;
    var lo := HexValue(s[1]).value;
    assert (16 * hi + lo) / 16 == hi && (16 * hi + lo) % 16 == lo;
  }

  /** The two digits of byte `i` in an address text. */
  function Group(s: string, i: nat): string
    requires 3 * i + 2 <= |s|
  {
    s[3 * i..3 * i + 2]
  }

  /** The separator after byte `i` in an address text. */
  function Sep(s: string, i: nat): char
    requires 3 * i + 2 < |s|
  {
    s[3 * i + 2]
  }

  /** Three characters in front of a text shift its groups by one. */
  lemma GroupsShift(head: string, rest: string, i: nat)
    requires |head| == 3 && 1 <= i && 3 * i + 2 <= |head| + |rest|
    ensures Group(head + rest, i) == Group(rest, i - 1)
    ensures 3 * i + 2 < |head| + |rest| ==> Sep(head + rest, i) == Sep(rest, i - 1)
  {
  }

  /** The bytes as two digits each, separated by colons. */
  function Join(bytes: seq<uint8>): (s: string)
    requires |bytes| >= 1
    ensures |s| == 3 * |bytes| - 1
    ensures forall i :: 0 <= i < |bytes| ==> Group(s, i) == HexByte(bytes[i])
    ensures forall i :: 0 <= i < |bytes| - 1 ==> Sep(s, i) == ':'
  {
    if |bytes| == 1 then HexByte(bytes[0])
    else
      var rest := Join(bytes[1..]);
      var head := HexByte(bytes[0]) + ":";
      assert forall i :: 1 <= i < |bytes| ==> Group(head + rest, i) == Group(rest, i - 1) by {
        forall i | 1 <= i < |bytes| {
          GroupsShift(head, rest, i);
        }
      }
      assert forall i :: 1 <= i < |bytes| - 1 ==> Sep(head + rest, i) == Sep(rest, i - 1) by {
        forall i | 1 <= i < |bytes| - 1 {
          GroupsShift(head, rest, i);
        }
      }
      head + rest
  }

  /** `Display for MacAddress`: `{:02x}:{:02x}:{:02x}:{:02x}:{:02x}:{:02x}`,
      seventeen characters. */
  function Display(m: MacAddress): (s: string)
    ensures |s| == 17
    ensures forall i :: 0 <= i < 6 ==> Group(s, i) == HexByte(m[i])
    ensures forall i :: 0 <= i < 5 ==> Sep(s, i) == ':'
  {
    Join(m)
  }

  /** `Debug for MacAddress` defers to `Display`, so it prints the same
      seventeen characters, which read back as the same address. */
  function Debug(m: MacAddress): (s: string)
    ensures |s| == 17
    ensures ParseMac(s) == Some(m)
  {
    MacRoundTrip(m);
    Display(m)
  }

  /** Reads an address back from its text form: six pairs of digits as
      `{:02x}` writes them, separated by colons. */
  function ParseMac(s: string): (r: Option<MacAddress>)
    ensures r.Some? ==> |s| == 17
    ensures r.Some? ==> forall i :: 0 <= i < 6 ==> ParseHexByte(Group(s, i)) == Some(r.value[i])
  {
    if |s| == 17
       && (forall i :: 0 <= i < 5 ==> Sep(s, i) == ':')
       && (forall i :: 0 <= i < 6 ==> ParseHexByte(Group(s, i)).Some?)
    then Some(seq(6, i requires 0 <= i < 6 => ParseHexByte(Group(s, i)).value))
    else None
  }

  /** The text of an address reads back as that address. */
  lemma MacRoundTrip(m: MacAddress)
    ensures ParseMac(Display(m)) == Some(m)
  {
    var s := Display(m);
    forall i | 0 <= i < 6
      ensures ParseHexByte(Group(s, i)) == Some(m[i])
    {
      HexByteRoundTrip(m[i]);
    }
    assert ParseMac(s).value == m;
  }

  /** Two address texts with the same groups and separators are the same text. */
  lemma SameText(s: string, t: string)
    requires |s| == |t| == 17
    requires forall i :: 0 <= i < 6 ==> Group(s, i) == Group(t, i)
    requires forall i :: 0 <= i < 5 ==> Sep(s, i) == Sep(t, i)
    ensures s == t
  {
    forall k | 0 <= k < 17
      ensures s[k] == t[k]
    {
      var i, r := k / 3, k % 3;
      assert k == 3 * i + r;
      if r == 2 {
        assert Sep(s, i) == Sep(t, i);
      } else {
        assert Group(s, i)[r] == Group(t, i)[r];
      }
    }
  }

  /** Every text that reads back as an address is that address's text, so
      the text form is canonical and `Display` is one-to-one. */
  lemma ParseMacCanonical(s: string)
    requires ParseMac(s).Some?
    ensures Display(ParseMac(s).value) == s
  {
    var d := Display(ParseMac(s).value);
    forall i | 0 <= i < 6
      ensures Group(d, i) == Group(s, i)
    {
      ParseHexByteRoundTrip(Group(s, i));
    }
    SameText(d, s);
  }

  /** Size of `EthernetHeader` as laid out by `repr(C)`: two addresses and a
      `u16`, with no padding. */
  const HeaderLen: nat := 14

  datatype EthernetHeader = EthernetHeader(destination: MacAddress, source: MacAddress, etherType: uint16)

  /** `EthernetHeader::try_decode`: `None` when the buffer is shorter than
      the header. Otherwise the destination is the first six bytes, the
      source the next six, and `ether_type` the next two read in the host's
      byte order. That order is little-endian here, so the field is not
      converted from network byte order. */
  function TryDecodeHeader(buf: seq<uint8>): (r: Option<EthernetHeader>)
    ensures r.None? <==> |buf| < HeaderLen
    ensures r.Some? ==> r.value.destination == buf[..6] && r.value.source == buf[6..12]
    ensures r.Some? ==> r.value.etherType as int == buf[12] as int + 0x100 * buf[13] as int
  {
    if |buf| < HeaderLen then None
    else Some(EthernetHeader(buf[..6], buf[6..12], ReadU16(buf, 12)))
  }

  /** The header's bytes as they sit at the front of a frame. */
  function EncodeHeader(h: EthernetHeader): (b: seq<uint8>)
    ensures |b| == HeaderLen
  {
    h.destination + h.source + U16Bytes(h.etherType)
  }

  /** Decoding reads back any header from the front of a buffer, whatever
      follows it. */
  lemma HeaderRoundTrip(h: EthernetHeader, tail: seq<uint8>)
    ensures TryDecodeHeader(EncodeHeader(h) + tail) == Some(h)
  {
    var b := EncodeHeader(h) + tail;
    assert b[..6] == h.destination;
    assert b[6..12] == h.source;
    ReadU16Prefix(EncodeHeader(h), tail, 12);
    ReadU16Shift(h.destination + h.source, U16Bytes(h.etherType), 0);
  }

  /** A decoded header is exactly the first `HeaderLen` bytes. */
  lemma HeaderDecodesPrefix(buf: seq<uint8>)
    requires TryDecodeHeader(buf).Some?
    ensures EncodeHeader(TryDecodeHeader(buf).value) == buf[..HeaderLen]
  {
    var h := TryDecodeHeader(buf).value;
    U16BytesOfRead(buf, 12);
    assert buf[..HeaderLen] == buf[..6] + buf[6..12] + buf[12..14];
  }

  datatype EthernetPacket = EthernetPacket(header: EthernetHeader, payload: seq<uint8>)

  /** `EthernetPacket::try_decode`: the header, and every byte after it as
      the payload; `None` exactly when the header does not fit. */
  function TryDecodePacket(buf: seq<uint8>): (r: Option<EthernetPacket>)
    ensures r.None? <==> |buf| < HeaderLen
    ensures r.Some? ==> Some(r.value.header) == TryDecodeHeader(buf)
    ensures r.Some? ==> |r.value.payload| == |buf| - HeaderLen && r.value.payload == buf[HeaderLen..]
  {
    match TryDecodeHeader(buf)
    case None => None
    case Some(header) => Some(EthernetPacket(header, buf[HeaderLen..]))
  }

  function EncodePacket(p: EthernetPacket): (b: seq<uint8>)
    ensures |b| == HeaderLen + |p.payload|
  {
    EncodeHeader(p.header) + p.payload
  }

  /** Decoding reads back any packet. */
  lemma PacketRoundTrip(p: EthernetPacket)
    ensures TryDecodePacket(EncodePacket(p)) == Some(p)
  {
    HeaderRoundTrip(p.header, p.payload);
  }

  /** A decoded packet accounts for every byte of the buffer. */
  lemma PacketDecodesAll(buf: seq<uint8>)
    requires TryDecodePacket(buf).Some?
    ensures EncodePacket(TryDecodePacket(buf).value) == buf
  {
    HeaderDecodesPrefix(buf);
    assert buf == buf[..HeaderLen] + buf[HeaderLen..];
  }
}
