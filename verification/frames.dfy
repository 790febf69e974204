/** The packet-frame decoder of `src/bsd/sync.rs`: `PacketIter::next` splits
    the filled prefix of a read buffer into back-to-back records, each a
    `bpf_hdr` followed (at offset `bh_hdrlen`) by `bh_caplen` captured bytes.

    The header layout is Darwin's, the only target where `libc::timeval32`
    exists: a 32-bit timestamp pair at 0..8, `bh_caplen` at 8..12,
    `bh_datalen` at 12..16, `bh_hdrlen` at 16..18, and two bytes of padding,
    so the structure is 20 bytes long. Fields are in native order. */
module Frames {
  import opened Bytes

  /** `size_of::<bpf_hdr>()`. */
  const HeaderSize: nat := 20

  /** `struct timeval32`: seconds and microseconds, both `i32`, held as
      the two stored 32-bit words; the decoder copies them verbatim. */
  datatype Timeval32 = Timeval32(secBits: uint32, usecBits: uint32)
  {
    function Sec(): int32 { AsI32(secBits) }
    function Usec(): int32 { AsI32(usecBits) }
  }

  datatype BpfHdr = BpfHdr(tstamp: Timeval32, caplen: uint32, datalen: uint32, hdrlen: uint16)

  /** The header at the start of `buf` (`ptr::read` of a `bpf_hdr`). */
  function DecodeHeader(buf: seq<uint8>): BpfHdr
    requires |buf| >= HeaderSize
  {
    BpfHdr(Timeval32(ReadU32(buf, 0), ReadU32(buf, 4)),
           ReadU32(buf, 8), ReadU32(buf, 12), ReadU16(buf, 16))
  }

  /** Where each field of the header lies: the timestamp words at 0..4 and
      4..8, `bh_caplen` at 8..12, `bh_datalen` at 12..16 and `bh_hdrlen` at
      16..18, each in little-endian order. */
  lemma DecodeHeaderLayout(buf: seq<uint8>)
    requires |buf| >= HeaderSize
    ensures var h := DecodeHeader(buf);
      && U32Bytes(h.tstamp.secBits) == buf[0..4] && U32Bytes(h.tstamp.usecBits) == buf[4..8]
      && U32Bytes(h.caplen) == buf[8..12] && U32Bytes(h.datalen) == buf[12..16]
      && U16Bytes(h.hdrlen) == buf[16..18]
  {
    U32BytesOfRead(buf, 0);
    U32BytesOfRead(buf, 4);
    U32BytesOfRead(buf, 8);
    U32BytesOfRead(buf, 12);
    U16BytesOfRead(buf, 16);
  }

  /** The 20 bytes of `bpf_hdr` for `h`, its two padding bytes zero. */
  function EncodeHeader(h: BpfHdr): (b: seq<uint8>)
    ensures |b| == HeaderSize
  {
    U32Bytes(h.tstamp.secBits) + U32Bytes(h.tstamp.usecBits)
    + U32Bytes(h.caplen) + U32Bytes(h.datalen) + U16Bytes(h.hdrlen) + Zeros(2)
  }

  /** A 20-byte header decodes to itself, whatever follows it. */
  lemma DecodeEncodedHeader(h: BpfHdr, tail: seq<uint8>)
    ensures DecodeHeader(EncodeHeader(h) + tail) == h
  {
    // The encoding, one field at a time: e1 holds the timestamp, e2 adds
    // `bh_caplen`, e3 `bh_datalen`, e4 `bh_hdrlen` and e5 the padding.
    var s0, s1 := U32Bytes(h.tstamp.secBits), U32Bytes(h.tstamp.usecBits);
    var e1 := s0 + s1;
    var e2 := e1 + U32Bytes(h.caplen);
    var e3 := e2 + U32Bytes(h.datalen);
    var e4 := e3 + U16Bytes(h.hdrlen);
    var e5 := e4 + Zeros(2);
    // Every field lies inside e4, so the padding and the tail do not matter.
    ReadU32Prefix(e5, tail, 0); ReadU32Prefix(e4, Zeros(2), 0);
    ReadU32Prefix(e5, tail, 4); ReadU32Prefix(e4, Zeros(2), 4);
    ReadU32Prefix(e5, tail, 8); ReadU32Prefix(e4, Zeros(2), 8);
    ReadU32Prefix(e5, tail, 12); ReadU32Prefix(e4, Zeros(2), 12);
    ReadU16Prefix(e5, tail, 16); ReadU16Prefix(e4, Zeros(2), 16);
    // Then each field is read from the part that ends with it.
    ReadU32Prefix(e3, U16Bytes(h.hdrlen), 0); ReadU32Prefix(e2, U32Bytes(h.datalen), 0);
    ReadU32Prefix(e1, U32Bytes(h.caplen), 0); ReadU32Prefix(s0, s1, 0);
    ReadU32Prefix(e3, U16Bytes(h.hdrlen), 4); ReadU32Prefix(e2, U32Bytes(h.datalen), 4);
    ReadU32Prefix(e1, U32Bytes(h.caplen), 4); ReadU32Shift(s0, s1, 0);
    ReadU32Prefix(e3, U16Bytes(h.hdrlen), 8); ReadU32Prefix(e2, U32Bytes(h.datalen), 8);
    ReadU32Shift(e1, U32Bytes(h.caplen), 0);
    ReadU32Prefix(e3, U16Bytes(h.hdrlen), 12); ReadU32Shift(e2, U32Bytes(h.datalen), 0);
    ReadU16Shift(e3, U16Bytes(h.hdrlen), 0);
  }

  /** A captured packet as yielded by the iterator: `timestamp`,
      `original_length` and the `capture` slice. */
  datatype Packet = Packet(timestamp: Timeval32, originalLength: uint32, capture: seq<uint8>)

  /** The iterator's state: the part of the read prefix not yet consumed. */
  datatype PacketIter = PacketIter(buf: seq<uint8>)

  /** One call of `next`: `Stop` is `None` (the iterator's buffer is left as
      it was, so every later call returns `None` again), `Emit` is
      `Some(packet)` with the iterator advanced to `rest`, and `Fault` is the
      out-of-range slice that panics. */
  datatype StepResult = Stop | Emit(packet: Packet, rest: seq<uint8>) | Fault

  /** `PacketIter::next` on the remaining buffer `buf`, exactly as written:
      `None` when the remainder is shorter than a header or than
      `bh_caplen`; a panic when it holds `bh_caplen` bytes but not
      `bh_hdrlen + bh_caplen`; otherwise the `bh_caplen` bytes at offset
      `bh_hdrlen`, the iterator advancing just past them with no
      word-alignment rounding. */
  function Step(buf: seq<uint8>): (r: StepResult)
    ensures r.Stop? <==> |buf| < HeaderSize || |buf| < DecodeHeader(buf).caplen
    ensures r.Fault? <==>
      |buf| >= HeaderSize && DecodeHeader(buf).caplen <= |buf| < DecodeHeader(buf).hdrlen + DecodeHeader(buf).caplen
    ensures r.Emit? ==>
      var h := DecodeHeader(buf);
      && |r.packet.capture| == h.caplen
      && r.packet.capture == buf[h.hdrlen..h.hdrlen + h.caplen]
      && r.packet.originalLength == h.datalen
      && r.packet.timestamp == h.tstamp
      && r.rest == buf[h.hdrlen + h.caplen..]
  {
    if |buf| < HeaderSize then Stop
    else
      var h := DecodeHeader(buf);
      if |buf| < h.caplen then Stop
      else if |buf| < h.hdrlen + h.caplen then Fault
      else Emit(Packet(h.tstamp, h.datalen, buf[h.hdrlen..h.hdrlen + h.caplen]), buf[h.hdrlen + h.caplen..])
  }

  /** The buffer shrinks on an emitted step exactly when `bh_hdrlen +
      bh_caplen` is positive; otherwise the iterator is left where it was
      and will emit the same packet again. */
  lemma StepProgress(buf: seq<uint8>)
    requires Step(buf).Emit?
    ensures var h := DecodeHeader(buf);
      |Step(buf).rest| < |buf| <==> h.hdrlen + h.caplen > 0
    ensures |Step(buf).rest| == |buf| ==> Step(buf).rest == buf
  {
  }

  /** The capture and the remainder are slices of `buf`: the remainder is
      its suffix and the capture ends where the remainder begins. */
  predicate SlicesOf(buf: seq<uint8>, capture: seq<uint8>, rest: seq<uint8>) {
    && |capture| + |rest| <= |buf|
    && rest == buf[|buf| - |rest|..]
    && buf[|buf| - |rest| - |capture|..|buf| - |rest|] == capture
  }

  /** What `step` emits on `buf`, if anything, is a slice of `buf`. */
  predicate SlicedAt(step: seq<uint8> -> StepResult, buf: seq<uint8>) {
    step(buf).Emit? ==> SlicesOf(buf, step(buf).packet.capture, step(buf).rest)
  }

  /** A step function that, like `next`, only ever emits slices of its input. */
  ghost predicate Slicing(step: seq<uint8> -> StepResult) {
    forall buf :: SlicedAt(step, buf)
  }

  lemma StepSlicing()
    ensures Slicing(Step)
  {
    forall buf
      ensures SlicedAt(Step, buf)
    {
      if Step(buf).Emit? {
        var h := DecodeHeader(buf);
        assert |buf| - |Step(buf).rest| == h.hdrlen + h.caplen;
      }
    }
  }

  /** How a run of the iterator ended. */
  datatype Ending = Exhausted | Panicked | OutOfFuel

  /** A yielded packet together with where its capture lies in the read
      prefix: `read[start..end]`. */
  datatype Frame = Frame(packet: Packet, start: nat, end: nat)

  datatype Drained = Drained(frames: seq<Frame>, ending: Ending)

  /** Running an iterator whose `next` is `step` over `read[pos..]`, for at
      most `fuel` calls. The fuel bounds the run because a header with
      `bh_hdrlen + bh_caplen == 0` makes no progress. */
  function Drain(step: seq<uint8> -> StepResult, read: seq<uint8>, pos: nat, fuel: nat): (d: Drained)
    requires Slicing(step)
    requires pos <= |read|
    ensures |d.frames| <= fuel
    ensures d.ending == OutOfFuel ==> |d.frames| == fuel
    decreases fuel
  {
    if fuel == 0 then Drained([], OutOfFuel)
    else
      match step(read[pos..])
      case Stop => Drained([], Exhausted)
      case Fault => Drained([], Panicked)
      case Emit(p, rest) =>
        assert SlicedAt(step, read[pos..]);
        var next := |read| - |rest|;
        var more := Drain(step, read, next, fuel - 1);
        Drained([Frame(p, next - |p.capture|, next)] + more.frames, more.ending)
  }

  /** The frames lie in `read`, in order, at or after `pos`: each capture
      is the bytes `read[start..end]`, and each frame starts at or after
      the end of the one before it. */
  predicate LaidOut(read: seq<uint8>, pos: nat, frames: seq<Frame>)
    decreases |frames|
  {
    || frames == []
    || (&& pos <= frames[0].start <= frames[0].end <= |read|
        && read[frames[0].start..frames[0].end] == frames[0].packet.capture
        && LaidOut(read, frames[0].end, frames[1..]))
  }

  /** The packets of a run, in the order they were yielded. */
  function Packets(frames: seq<Frame>): (ps: seq<Packet>)
    ensures |ps| == |frames|
  {
    if frames == [] then [] else [frames[0].packet] + Packets(frames[1..])
  }

  /** Unfolding `Drain` over one emitted step. */
  lemma {:induction false} DrainEmit(step: seq<uint8> -> StepResult, read: seq<uint8>, pos: nat, fuel: nat)
    requires Slicing(step) && pos <= |read| && fuel > 0 && step(read[pos..]).Emit?
    ensures SlicesOf(read[pos..], step(read[pos..]).packet.capture, step(read[pos..]).rest)
    ensures var r := step(read[pos..]); var next := |read| - |r.rest|;
      && pos + |r.packet.capture| <= next <= |read|
      && Drain(step, read, pos, fuel).ending == Drain(step, read, next, fuel - 1).ending
      && Drain(step, read, pos, fuel).frames
         == [Frame(r.packet, next - |r.packet.capture|, next)] + Drain(step, read, next, fuel - 1).frames
  {
    assert SlicedAt(step, read[pos..]);
  }

  /** A frame laid out before frames laid out after it. */
  lemma LaidOutCons(read: seq<uint8>, pos: nat, f: Frame, more: seq<Frame>)
    requires pos <= f.start <= f.end <= |read|
    requires read[f.start..f.end] == f.packet.capture
    requires LaidOut(read, f.end, more)
    ensures LaidOut(read, pos, [f] + more)
  {
    assert ([f] + more)[1..] == more;
  }

  /** The place of an emitted capture in the whole read prefix. */
  lemma EmittedSlice(read: seq<uint8>, pos: nat, capture: seq<uint8>, rest: seq<uint8>)
    requires pos <= |read| && SlicesOf(read[pos..], capture, rest)
    ensures pos <= |read| - |rest| - |capture|
    ensures read[|read| - |rest| - |capture|..|read| - |rest|] == capture
  {
    var start, next := |read| - |rest| - |capture|, |read| - |rest|;
    assert read[pos..][start - pos..next - pos] == read[start..next];
  }

  /** Every capture the iterator yields is the bytes at its recorded place
      in the read prefix, at or after the starting position, and
      successive captures are disjoint and in buffer order. */
  lemma {:induction false} DrainLaidOut(step: seq<uint8> -> StepResult, read: seq<uint8>, pos: nat, fuel: nat)
    requires Slicing(step) && pos <= |read|
    ensures LaidOut(read, pos, Drain(step, read, pos, fuel).frames)
    decreases fuel
  {
    if fuel > 0 && step(read[pos..]).Emit? {
      var r := step(read[pos..]);
      DrainEmit(step, read, pos, fuel);
      EmittedSlice(read, pos, r.packet.capture, r.rest);
      var next := |read| - |r.rest|;
      DrainLaidOut(step, read, next, fuel - 1);
      LaidOutCons(read, pos, Frame(r.packet, next - |r.packet.capture|, next), Drain(step, read, next, fuel - 1).frames);
    }
  }

  /** Every frame's capture is the bytes `read[start..end]`, at or after `pos`. */
  predicate WithinRead(read: seq<uint8>, pos: nat, frames: seq<Frame>) {
    forall i :: 0 <= i < |frames| ==>
      pos <= frames[i].start <= frames[i].end <= |read|
      && read[frames[i].start..frames[i].end] == frames[i].packet.capture
  }

  /** Frames are disjoint and in buffer order. */
  predicate InOrder(frames: seq<Frame>) {
    forall i, j :: 0 <= i < j < |frames| ==> frames[i].end <= frames[j].start
  }

  /** Frames laid out in a buffer satisfy both positional properties, stated by index. */
  lemma {:induction false} LaidOutByIndex(read: seq<uint8>, pos: nat, frames: seq<Frame>)
    requires LaidOut(read, pos, frames)
    ensures WithinRead(read, pos, frames) && InOrder(frames)
    decreases |frames|
  {
    if frames != [] {
      var more := frames[1..];
      LaidOutByIndex(read, frames[0].end, more);
      forall i | 1 <= i < |frames|
        ensures frames[i] == more[i - 1]
      {
      }
    }
  }

  /** The bytes of `bpf_hdr` that hold its fields; the rest is padding. */
  const FieldsSize: nat := 18

  /** The decoder reads nothing of a header past its fields. */
  lemma FieldsDecideHeader(a: seq<uint8>, b: seq<uint8>)
    requires |a| >= HeaderSize && |b| >= HeaderSize && a[..FieldsSize] == b[..FieldsSize]
    ensures DecodeHeader(a) == DecodeHeader(b)
  {
    forall i | 0 <= i < FieldsSize
      ensures a[i] == b[i]
    {
      assert a[..FieldsSize][i] == b[..FieldsSize][i];
    }
  }

  /** A record as `next` reads it: a header, of which the field bytes are
      written and the bytes up to `bh_hdrlen` are zero, then the captured
      bytes. */
  datatype Record = Record(tstamp: Timeval32, datalen: uint32, hdrlen: uint16, capture: seq<uint8>)

  /** `bh_hdrlen` leaves room for the fields, so the capture does not
      overlap them, and `bh_caplen` can hold the capture's length. */
  predicate WellFormed(r: Record) {
    r.hdrlen >= FieldsSize && |r.capture| < 0x1_0000_0000
  }

  /** `next` reads a whole `bpf_hdr` before it looks at `bh_caplen`, so a
      record is only read when at least `HeaderSize` bytes remain. A record
      at least that long is read whatever follows it. */
  predicate Whole(r: Record) {
    r.hdrlen + |r.capture| >= HeaderSize
  }

  function HeaderOf(r: Record): BpfHdr
    requires WellFormed(r)
  {
    BpfHdr(r.tstamp, |r.capture|, r.datalen, r.hdrlen)
  }

  function EncodeRecord(r: Record): (b: seq<uint8>)
    requires WellFormed(r)
    ensures |b| == r.hdrlen + |r.capture|
  {
    EncodeHeader(HeaderOf(r))[..FieldsSize] + Zeros(r.hdrlen - FieldsSize) + r.capture
  }

  function PacketOf(r: Record): Packet {
    Packet(r.tstamp, r.datalen, r.capture)
  }

  /** A well-formed record with at least a header's worth of bytes from its
      start on yields its own packet and leaves exactly what follows it. */
  lemma StepDecodesRecord(r: Record, tail: seq<uint8>)
    requires WellFormed(r) && |EncodeRecord(r) + tail| >= HeaderSize
    ensures Step(EncodeRecord(r) + tail) == Emit(PacketOf(r), tail)
  {
    var e := EncodeHeader(HeaderOf(r));
    var buf := EncodeRecord(r) + tail;
    DecodeEncodedHeader(HeaderOf(r), []);
    assert e + [] == e;
    assert buf[..FieldsSize] == e[..FieldsSize];
    FieldsDecideHeader(buf, e);
    assert buf[r.hdrlen..] == r.capture + tail;
  }

  /** With fewer than `HeaderSize` bytes left, a record is not read: the
      iterator returns `None` and the record is dropped. */
  lemma ShortRecordDropped(r: Record, tail: seq<uint8>)
    requires WellFormed(r) && |EncodeRecord(r) + tail| < HeaderSize
    ensures Step(EncodeRecord(r) + tail) == Stop
  {
  }

  /** A lone trailing record of 19 bytes, an 18-byte header and one
      captured byte, is dropped. */
  lemma ShortRecordExample()
    ensures WellFormed(Record(Timeval32(0, 0), 1, 18, [7]))
    ensures Step(EncodeRecord(Record(Timeval32(0, 0), 1, 18, [7]))) == Stop
  {
    var r := Record(Timeval32(0, 0), 1, 18, [7]);
    assert EncodeRecord(r) + [] == EncodeRecord(r);
    ShortRecordDropped(r, []);
  }

  /** The bytes of consecutive chunks, back to back. */
  function Flatten(chunks: seq<seq<uint8>>): seq<uint8> {
    if chunks == [] then [] else chunks[0] + Flatten(chunks[1..])
  }

  /** The bytes of records laid back to back, with no padding between them. */
  function EncodeRecords(rs: seq<Record>): seq<uint8>
    requires forall i :: 0 <= i < |rs| ==> WellFormed(rs[i])
  {
    Flatten(Chunks(rs))
  }

  /** Each record's bytes, as a chunk of its own. */
  function Chunks(rs: seq<Record>): (cs: seq<seq<uint8>>)
    requires forall i :: 0 <= i < |rs| ==> WellFormed(rs[i])
    ensures |cs| == |rs|
  {
    if rs == [] then [] else [EncodeRecord(rs[0])] + Chunks(rs[1..])
  }

  predicate YieldsOn(step: seq<uint8> -> StepResult, chunk: seq<uint8>, p: Packet, tail: seq<uint8>) {
    step(chunk + tail) == Emit(p, tail)
  }

  /** `step` reads `chunk` as the packet `p`, whatever follows it. */
  ghost predicate Yields(step: seq<uint8> -> StepResult, chunk: seq<uint8>, p: Packet) {
    forall tail :: YieldsOn(step, chunk, p, tail)
  }

  lemma SuffixAfter(read: seq<uint8>, pos: nat, a: seq<uint8>, b: seq<uint8>)
    requires pos <= |read| && read[pos..] == a + b
    ensures read[|read| - |b|..] == b
  {
    assert |read| - |b| == pos + |a|;
    assert read[pos..][|a|..] == b;
  }

  /** Each chunk yields its packet, pairwise. */
  ghost predicate AllYield(step: seq<uint8> -> StepResult, chunks: seq<seq<uint8>>, packets: seq<Packet>)
    decreases |chunks|
  {
    && |chunks| == |packets|
    && (chunks != [] ==> Yields(step, chunks[0], packets[0]) && AllYield(step, chunks[1..], packets[1..]))
  }

  /** The packets and ending of a run whose first step emits. */
  lemma PacketsAfterEmit(step: seq<uint8> -> StepResult, read: seq<uint8>, pos: nat, fuel: nat)
    requires Slicing(step) && pos <= |read| && fuel > 0 && step(read[pos..]).Emit?
    ensures var r := step(read[pos..]); var next := |read| - |r.rest|;
      && pos <= next <= |read|
      && Drain(step, read, pos, fuel).ending == Drain(step, read, next, fuel - 1).ending
      && Packets(Drain(step, read, pos, fuel).frames) == [r.packet] + Packets(Drain(step, read, next, fuel - 1).frames)
  {
    DrainEmit(step, read, pos, fuel);
    var frames := Drain(step, read, pos, fuel).frames;
    assert frames[1..] == Drain(step, read, |read| - |step(read[pos..]).rest|, fuel - 1).frames;
  }

  /** Back-to-back chunks that each yield one packet, followed by slack on
      which the step stops, yield those packets in order and then stop. */
  lemma {:induction false} DrainYieldsChunks(
    step: seq<uint8> -> StepResult, read: seq<uint8>, pos: nat,
    chunks: seq<seq<uint8>>, packets: seq<Packet>, slack: seq<uint8>)
    requires Slicing(step)
    requires AllYield(step, chunks, packets)
    requires step(slack) == Stop
    requires pos <= |read| && read[pos..] == Flatten(chunks) + slack
    ensures Drain(step, read, pos, |chunks| + 1).ending == Exhausted
    ensures Packets(Drain(step, read, pos, |chunks| + 1).frames) == packets
    decreases |chunks|
  {
    if chunks == [] {
      assert read[pos..] == slack;
      assert Drain(step, read, pos, 1) == Drained([], Exhausted);
    } else {
      var rest := Flatten(chunks[1..]) + slack;
      assert read[pos..] == chunks[0] + rest;
      assert YieldsOn(step, chunks[0], packets[0], rest);
      var fuel, next := |chunks| + 1, |read| - |rest|;
      PacketsAfterEmit(step, read, pos, fuel);
      SuffixAfter(read, pos, chunks[0], rest);
      DrainYieldsChunks(step, read, next, chunks[1..], packets[1..], slack);
      assert |chunks[1..]| + 1 == fuel - 1;
      var d, more := Drain(step, read, pos, fuel), Drain(step, read, next, fuel - 1);
      assert d.ending == more.ending == Exhausted;
      assert Packets(d.frames) == [packets[0]] + Packets(more.frames) == [packets[0]] + packets[1..];
    }
  }

  /** The packets of a sequence of records. */
  function PacketsOf(rs: seq<Record>): (ps: seq<Packet>)
    ensures |ps| == |rs|
  {
    seq(|rs|, i requires 0 <= i < |rs| => PacketOf(rs[i]))
  }

  /** The iterator over the bytes of back-to-back records (and slack
      shorter than a header) yields exactly those records' packets, in
      order, from disjoint regions of the buffer, and then returns `None`.
      With no records it yields nothing. */
  lemma DecodesBackToBack(rs: seq<Record>, slack: seq<uint8>)
    requires forall i :: 0 <= i < |rs| ==> WellFormed(rs[i]) && Whole(rs[i])
    requires |slack| < HeaderSize
    ensures Slicing(Step)
    ensures var read := EncodeRecords(rs) + slack; var d := Drain(Step, read, 0, |rs| + 1);
      && d.ending == Exhausted
      && Packets(d.frames) == PacketsOf(rs)
      && LaidOut(read, 0, d.frames)
  {
    RecordsYield(rs);
    assert Step(slack) == Stop;
    StepSlicing();
    var read := EncodeRecords(rs) + slack;
    assert read[0..] == read;
    DrainYieldsChunks(Step, read, 0, Chunks(rs), PacketsOf(rs), slack);
    DrainLaidOut(Step, read, 0, |rs| + 1);
  }

  /** Every well-formed record at least a header long yields its own
      packet, whatever follows it. */
  lemma {:induction false} RecordsYield(rs: seq<Record>)
    requires forall i :: 0 <= i < |rs| ==> WellFormed(rs[i]) && Whole(rs[i])
    ensures AllYield(Step, Chunks(rs), PacketsOf(rs))
    decreases |rs|
  {
    if rs != [] {
      forall tail
        ensures YieldsOn(Step, EncodeRecord(rs[0]), PacketOf(rs[0]), tail)
      {
        StepDecodesRecord(rs[0], tail);
      }
      RecordsYield(rs[1..]);
      assert Chunks(rs)[1..] == Chunks(rs[1..]);
      assert PacketsOf(rs)[1..] == PacketsOf(rs[1..]);
    }
  }

  /** A step that emits without consuming anything repeats forever: every
      call emits a capture that starts and ends at the same place, and the
      run only ends for lack of fuel. */
  lemma {:induction false} StuckStepRepeats(step: seq<uint8> -> StepResult, read: seq<uint8>, pos: nat, fuel: nat)
    requires Slicing(step) && pos <= |read|
    requires step(read[pos..]).Emit? && step(read[pos..]).rest == read[pos..]
    ensures Drain(step, read, pos, fuel).ending == OutOfFuel
    ensures forall i :: 0 <= i < |Drain(step, read, pos, fuel).frames| ==>
      Drain(step, read, pos, fuel).frames[i].start == Drain(step, read, pos, fuel).frames[i].end == pos
    decreases fuel
  {
    if fuel > 0 {
      DrainEmit(step, read, pos, fuel);
      StuckStepRepeats(step, read, pos, fuel - 1);
      var frames, more := Drain(step, read, pos, fuel).frames, Drain(step, read, pos, fuel - 1).frames;
      forall i | 1 <= i < |frames|
        ensures frames[i] == more[i - 1]
      {
      }
    }
  }

  /** A header claiming `bh_hdrlen + bh_caplen == 0` makes `next` yield an
      empty capture forever. */
  lemma ZeroLengthRecordRepeats(read: seq<uint8>, pos: nat, fuel: nat)
    requires pos <= |read| && |read| - pos >= HeaderSize
    requires DecodeHeader(read[pos..]).hdrlen == 0 && DecodeHeader(read[pos..]).caplen == 0
    ensures Slicing(Step)
    ensures Drain(Step, read, pos, fuel).ending == OutOfFuel
    ensures |Drain(Step, read, pos, fuel).frames| == fuel
  {
    StepSlicing();
    assert Step(read[pos..]).rest == read[pos..];
    StuckStepRepeats(Step, read, pos, fuel);
  }

  /** The guard `buf.len() < bh_caplen` does not account for `bh_hdrlen`: a
      trailing record whose captured bytes are cut short by the end of the
      read panics at the slice instead of ending the iteration. */
  lemma TruncatedRecordFaults(h: BpfHdr, tail: seq<uint8>)
    requires h.caplen <= HeaderSize + |tail| < h.hdrlen + h.caplen
    ensures Step(EncodeHeader(h) + tail) == Fault
  {
    DecodeEncodedHeader(h, tail);
  }

  /** The smallest such input: a lone 20-byte header announcing four
      captured bytes after a 20-byte header. */
  lemma TruncatedRecordExample()
    ensures Step(EncodeHeader(BpfHdr(Timeval32(0, 0), 4, 4, 20))) == Fault
  {
    var h := BpfHdr(Timeval32(0, 0), 4, 4, 20);
    assert EncodeHeader(h) + [] == EncodeHeader(h);
    TruncatedRecordFaults(h, []);
  }

  /** `next` with a guard on `buf.len() < bh_hdrlen + bh_caplen`, which the
      slice that follows it evidently relies on: a truncated trailing record
      ends the iteration instead of panicking. */
  function StepChecked(buf: seq<uint8>): (r: StepResult)
    ensures !r.Fault?
    ensures Step(buf).Fault? ==> r.Stop?
    ensures !Step(buf).Fault? ==> r == Step(buf)
  {
    if |buf| < HeaderSize then Stop
    else
      var h := DecodeHeader(buf);
      if |buf| < h.hdrlen + h.caplen then Stop
      else Emit(Packet(h.tstamp, h.datalen, buf[h.hdrlen..h.hdrlen + h.caplen]), buf[h.hdrlen + h.caplen..])
  }

  lemma StepCheckedSlicing()
    ensures Slicing(StepChecked)
  {
    forall buf
      ensures SlicedAt(StepChecked, buf)
    {
      StepSlicing();
      assert SlicedAt(Step, buf);
    }
  }

  /** A step function that never panics. */
  ghost predicate NeverFaults(step: seq<uint8> -> StepResult) {
    forall buf :: !step(buf).Fault?
  }

  /** Iterating a step that never panics never ends in a panic. */
  lemma {:induction false} DrainNeverPanics(step: seq<uint8> -> StepResult, read: seq<uint8>, pos: nat, fuel: nat)
    requires Slicing(step) && NeverFaults(step) && pos <= |read|
    ensures Drain(step, read, pos, fuel).ending != Panicked
    decreases fuel
  {
    if fuel > 0 && step(read[pos..]).Emit? {
      DrainEmit(step, read, pos, fuel);
      DrainNeverPanics(step, read, |read| - |step(read[pos..]).rest|, fuel - 1);
    }
  }

  /** The corrected iterator never panics: every run ends by returning
      `None` or is still yielding when the fuel runs out. */
  lemma CheckedDrainNeverPanics(read: seq<uint8>, pos: nat, fuel: nat)
    requires pos <= |read|
    ensures Slicing(StepChecked)
    ensures Drain(StepChecked, read, pos, fuel).ending != Panicked
  {
    StepCheckedSlicing();
    assert NeverFaults(StepChecked);
    DrainNeverPanics(StepChecked, read, pos, fuel);
  }
}
