# rawsocket: a Dafny model of the BPF capture core

This project models the core of `rawsocket`, a Rust crate for raw link-layer capture through the BSD packet-filter device (`/dev/bpfNN`). It covers:

- the framing decoder `PacketIter::next`, which splits one filled read buffer into `bpf_hdr`-prefixed packet records;
- `read_iter`, which hands the decoder exactly the bytes read;
- device acquisition (`open_device`) over the numbered device nodes;
- construction (`BpfSocket::open_with_flags` / `open`): open, then an optional buffer-length request, then the interface bind;
- the interface-name packing and parsing of `BIOCSETIF` / `BIOCGETIF`, and the other control calls that carry logic of their own;
- the value newtypes `DataLinkLayer` and `BpfDirection`;
- the `bpf_insn` / `bpf_program` / `bpf_stat` records and the `bpf_filter!` builder;
- `MacAddress` formatting, `EthernetHeader::try_decode` and `EthernetPacket::try_decode`.

Modules and files:

| file | module | source |
|---|---|---|
| `wrappers.dfy` | `Wrappers` | `Option` and `Result` |
| `bytes.dfy` | `Bytes` | machine integers, little-endian byte codecs |
| `bsd.dfy` | `Bsd` | `src/bsd/mod.rs` |
| `bpf.dfy` | `Bpf` | `src/bpf.rs` |
| `ioctl.dfy` | `Ioctl` | `src/ioctl.rs` |
| `frames.dfy` | `Frames` | `src/bsd/sync.rs`, the decoder |
| `sync.dfy` | `Sync` | `src/bsd/sync.rs`, acquisition, construction, `read_iter` |
| `ethernet.dfy` | `Ethernet` | `src/lib.rs` |

Modelling choices:

- **Machine integers.** Fixed-width integers are subset types of `int` (`uint8`, `uint16`, `uint32`, `int32`). Buffers are `seq<uint8>`.
- **Host and header layout.** The host is little-endian, and `bpf_hdr` has the Darwin layout. Darwin is the only target where `libc::timeval32` exists. The layout is a 32-bit timestamp pair at bytes 0..8, `bh_caplen` at 8..12, `bh_datalen` at 12..16 and `bh_hdrlen` at 16..18, padded to 20 bytes.
- **The operating system** is a parameter: a datatype `Os` of two total functions, one giving the outcome of `open(path, flags)` and one giving the outcome of a control request on a descriptor. Construction returns the trace of calls it issued, so ordering and abort-on-first-failure are properties of that trace. Getter control calls are modelled as functions of the kernel's reply.
- **Iterating the decoder.** `Frames.Drain` runs a step function over a read prefix for at most `fuel` calls. It records, for every yielded packet, where its capture lies in the prefix. It is generic in the step function, so the same lemmas serve the decoder as written (`Frames.Step`) and the corrected one (`Frames.StepChecked`).

**Behaviour of the code worth knowing:**

- The decoder's second guard compares the remainder only with `bh_caplen`. The slice after it needs `bh_hdrlen + bh_caplen` bytes, so a trailing record truncated by the end of the read panics instead of ending the iteration. The model follows the code (`Frames.Step`) and records the evidently intended guard under Findings (`Frames.StepChecked`).
- When no device opens, `open_device` returns the error of the last open attempt. Its initial `NODEV` is always overwritten, so there is no distinct "no device available" error.
- The record advance has no word-alignment rounding.
- `next` reads a whole 20-byte `bpf_hdr` before each record, although the fields end at byte 18 and `bh_hdrlen` may be 18. So a record is decoded only when at least 20 bytes remain from its start, and a shorter trailing record is dropped (`Frames.ShortRecordDropped`). The back-to-back results are stated for records of at least 20 bytes.

## Model

| member | source | states |
|---|---|---|
| Bsd.DataLinkLayer.AsRaw | src/bsd/mod.rs:61-65 | unwrapping and re-wrapping gives back the same layer |
| Bsd.DataLinkLayer.FromRaw | src/bsd/mod.rs:55-59 | any raw value, named or not, is wrapped unchanged |
| Bsd.DataLinkLayerRoundTrip | src/bsd/mod.rs:55-65 | `from_raw` then `as_raw` returns the raw integer, and `as_raw` then `from_raw` returns the value, for every input |
| Bsd.BpfDirection.AsRaw | src/bsd/mod.rs:90-94 | unwrapping and re-wrapping gives back the same direction |
| Bsd.BpfDirection.FromRaw | src/bsd/mod.rs:84-88 | any raw value, named or not, is wrapped unchanged |
| Bsd.BpfDirectionRoundTrip | src/bsd/mod.rs:84-94 | both round trips of `from_raw` / `as_raw` for directions |
| Bsd.EqualityIsRawEquality | src/bsd/mod.rs:7-9 | derived equality of either newtype is exactly equality of the raw values |
| Bsd.DirectionConstants | src/bsd/mod.rs:75-82 | `IN`, `IN_OUT`, `OUT` are raw 0, 1, 2 and pairwise distinct |
| Bpf.Insn | src/bpf.rs:30-35 | tuple `{a, b, c, d}` becomes the instruction with code a, jt b, jf c, k d |
| Bpf.Instructions | src/bpf.rs:28-37 | one instruction per tuple, element `i` built from tuple `i` |
| Bpf.BpfFilter | src/bpf.rs:24-49 | needs at least one tuple; `bf_len` is the tuple count cast to `u32`, so it equals the count below 2^32 |
| Bpf.FilterKeepsTuples | src/bpf.rs:28-42 | the built program holds exactly the written tuples, in order |
| Bpf.StatEquality | src/bpf.rs:17-22 | two statistics records are equal exactly when both counters are |
| Ioctl.PackIfName | src/ioctl.rs:57-69 | fails with `NODEV` exactly when the name has `IFNAMSIZ` or more bytes; otherwise a 16-byte field with the name first and zeros after |
| Ioctl.BindRequest | src/ioctl.rs:55-73 | `BIOCSETIF` is either refused locally with `NODEV` or issued with a 16-byte field holding the name bytes followed by zeros |
| Ioctl.FirstZero | src/ioctl.rs:83 | returns the position of the first zero byte, with no zero before it, or reports that there is none |
| Ioctl.Widen | src/ioctl.rs:84 | each byte becomes the character with that code point |
| Ioctl.ParseIfName | src/ioctl.rs:83-89 | fails with `INVAL` exactly when the field has no zero byte; otherwise the name is the bytes before the first zero, widened |
| Ioctl.GetInterfaceName | src/ioctl.rs:76-91 | a failed call's error passes through; a returned field is parsed, and every character is below 256 |
| Ioctl.IfNameRoundTrip | src/ioctl.rs:56-89 | packing then parsing returns every name that fits and has no zero byte |
| Ioctl.ImmediateRequest | src/ioctl.rs:95-101 | the flag word is 1 exactly for `true` and 0 exactly for `false` |
| Ioctl.SetDltRequest | src/ioctl.rs:46-52 | the raw layer value is sent unchanged |
| Ioctl.GetDlt | src/ioctl.rs:37-43 | the kernel's raw value is wrapped unchanged, and errors pass through |
| Ioctl.DltSetGetRoundTrip | src/ioctl.rs:37-52 | reading back the value that was set gives the same layer |
| Frames.Step | src/bsd/sync.rs:125-148 | `None` exactly when the remainder is shorter than a header or than `bh_caplen`; a panic exactly when it holds `bh_caplen` bytes but not `bh_hdrlen + bh_caplen`; otherwise the capture is the `bh_caplen` bytes at `bh_hdrlen`, with `bh_datalen` and the timestamp copied and the remainder just past the capture |
| Frames.StepProgress | src/bsd/sync.rs:138-140 | a yielded record shrinks the buffer exactly when `bh_hdrlen + bh_caplen > 0` |
| Frames.StepSlicing | src/bsd/sync.rs:138-140 | the capture and the remainder are slices of the buffer, with the capture ending where the remainder starts |
| Frames.DecodeHeaderLayout | src/bsd/sync.rs:132 | the `ptr::read` of `bpf_hdr` takes the timestamp words from bytes 0..4 and 4..8, `bh_caplen` from 8..12, `bh_datalen` from 12..16 and `bh_hdrlen` from 16..18, each little-endian |
| Frames.DecodeEncodedHeader | src/bsd/sync.rs:132 | the 20 bytes of a header, padding zero, read back as that header, whatever follows |
| Frames.DrainLaidOut | src/bsd/sync.rs:125-148 | every yielded capture is the bytes at its recorded place in the read prefix, at or after the starting position, and each starts at or after the end of the one before it |
| Frames.LaidOutByIndex | src/bsd/sync.rs:138-140 | frames laid out one after another all lie within the read prefix and are pairwise disjoint, in buffer order |
| Frames.FieldsDecideHeader | src/bsd/sync.rs:132 | the header read depends only on the first 18 bytes, where the fields lie |
| Frames.StepDecodesRecord | src/bsd/sync.rs:128-146 | a record with `bh_hdrlen` of 18 or more (the fields, then zeros) and at least 20 bytes left from its start yields its own packet and leaves exactly what follows it |
| Frames.ShortRecordDropped | src/bsd/sync.rs:128-130 | a record with fewer than 20 bytes left from its start is not read: `None`, and the record is dropped |
| Frames.ShortRecordExample | src/bsd/sync.rs:128-130 | a lone trailing record of 19 bytes (`bh_hdrlen` 18, one captured byte) is dropped |
| Frames.RecordsYield | src/bsd/sync.rs:128-146 | each well-formed record of at least 20 bytes yields its own packet, whatever bytes follow it |
| Frames.DrainYieldsChunks | src/bsd/sync.rs:125-148 | back-to-back chunks that each yield one packet whatever follows, then slack on which the step stops, yield those packets in order and then `None` |
| Frames.DecodesBackToBack | src/bsd/sync.rs:125-148 | the bytes of any sequence of well-formed records of at least 20 bytes each, laid back to back, plus trailing slack shorter than a header, decode to exactly those packets, in order, each capture at its place in the buffer after the one before, then `None` |
| Frames.StuckStepRepeats | src/bsd/sync.rs:138-140 | a step that emits without consuming repeats the same empty-position capture until the fuel runs out |
| Frames.ZeroLengthRecordRepeats | src/bsd/sync.rs:138-140 | a header with `bh_hdrlen + bh_caplen == 0` makes the iterator yield forever |
| Frames.TruncatedRecordFaults | src/bsd/sync.rs:134-138 | a trailing record whose capture runs past the end of the read panics instead of ending the iteration |
| Frames.TruncatedRecordExample | src/bsd/sync.rs:134-138 | a lone 20-byte header announcing 4 captured bytes panics |
| Frames.StepChecked | src/bsd/sync.rs:134 | the corrected step never panics; where the step as written panics it returns `None`, and elsewhere it agrees with it |
| Frames.DrainNeverPanics | src/bsd/sync.rs:125-148 | iterating any slicing step that never panics never ends in a panic |
| Frames.CheckedDrainNeverPanics | src/bsd/sync.rs:134 | the corrected iterator never ends in a panic, on any buffer |
| Sync.DevicePath | src/bsd/sync.rs:15 | candidate `i` is `/dev/bpf` followed by two decimal digits whose value is `i` |
| Sync.DevicePathRoundTrip | src/bsd/sync.rs:15 | every candidate path reads back as its own index |
| Sync.DevicePathInjective | src/bsd/sync.rs:14-15 | distinct candidates have distinct paths |
| Sync.OpenDevice | src/bsd/sync.rs:12-23 | tries candidates 0, 1, … in order with the given flags; every attempt but the last was refused; the result is the last attempt's outcome; a failure means all 100 were tried |
| Sync.Configure | src/bsd/sync.rs:39-45 | the buffer-length request comes first and only when a length is given; the only control requests are that one and the bind, at most one of each; success exactly when it and the bind both succeed and the name fits; the socket holds the opened descriptor |
| Sync.ConfigureLenBeforeBind | src/bsd/sync.rs:39-43 | in the configuration calls, every buffer-length request precedes every bind and carries the requested length |
| Sync.OnlyLenThenBindAfterOpens | src/bsd/sync.rs:37-45 | opens in front of the configuration calls add no control request, so the construction trace still holds only the length request and then the bind |
| Sync.ConfigureAborts | src/bsd/sync.rs:39-45 | every configuration call but the last succeeded; a failure is the last call's error, or the local `NODEV` with no bind and no failed call before it |
| Sync.ProbeThenConfigure | src/bsd/sync.rs:36-46 | a successful probe followed by configuration keeps the configuration's ordering and abort properties |
| Sync.ProbeThenUse | src/bsd/sync.rs:36-45 | after a probe ending in an accepted open, configuration calls that start with the buffer length and go to the returned descriptor use that descriptor throughout |
| Sync.OpenWithFlags | src/bsd/sync.rs:36-46 | opens come first, candidate by candidate; the only control requests are the buffer-length request and then the bind, at most one of each; each call is followed by an open exactly when it failed; a requested buffer length is set on the opened descriptor by the very next call, and is set before the bind; every later call goes to that descriptor; a failure is the last call's error, or the local `NODEV` after every issued call succeeded; a success holds the opened descriptor, every control call on it succeeded, and the last is the bind of this interface |
| Sync.OpenSocket | src/bsd/sync.rs:48-50 | every open uses read-write access, with all the construction properties of `open_with_flags` |
| Sync.ReadIter | src/bsd/sync.rs:108-111 | a read error gives no iterator and passes through; otherwise the iterator covers exactly the first `bytes` bytes of the buffer |
| Sync.ReadIterCapturesWithinRead | src/bsd/sync.rs:108-111 | every packet from a `read_iter` iterator is a slice of the buffer ending within the bytes read |
| Ethernet.HexByte | src/lib.rs:34 | a byte is two lower-case hex digits |
| Ethernet.HexByteRoundTrip | src/lib.rs:34 | the two digits of a byte read back as that byte |
| Ethernet.Join | src/lib.rs:32-36 | group `i` of the text is byte `i` in hex, and every group but the last is followed by a colon |
| Ethernet.Display | src/lib.rs:30-38 | 17 characters: six two-digit lower-case hex groups separated by colons |
| Ethernet.MacRoundTrip | src/lib.rs:30-38 | the text of an address reads back as that address |
| Ethernet.ParseMacCanonical | src/lib.rs:30-38 | every text that reads back as an address is that address's text, so the text form is one-to-one |
| Ethernet.Debug | src/lib.rs:40-44 | `Debug` prints the `Display` text: 17 characters that read back as the address |
| Ethernet.TryDecodeHeader | src/lib.rs:54-61 | `None` exactly when the buffer is shorter than 14 bytes; otherwise destination is bytes 0..6, source 6..12, and `ether_type` bytes 12..14 in host (little-endian) order |
| Ethernet.HeaderRoundTrip | src/lib.rs:46-61 | any header at the front of a buffer decodes to itself |
| Ethernet.HeaderDecodesPrefix | src/lib.rs:54-61 | a decoded header is exactly the first 14 bytes |
| Ethernet.TryDecodePacket | src/lib.rs:70-76 | `None` exactly when the header does not fit; otherwise the header decoded from the buffer and every byte after it as payload |
| Ethernet.PacketRoundTrip | src/lib.rs:70-76 | any packet's bytes decode to that packet |
| Ethernet.PacketDecodesAll | src/lib.rs:70-76 | header and payload of a decoded packet account for every byte of the buffer |

## Left out

- `src/bsd/tokio.rs`, the non-blocking variant on an async reactor: its readiness loop and task suspension have no counterpart in a sequential model.
- Real OS effects: `open`, `read` and every control call are the parameter `Os` or a reply value. Most numeric request codes come from the C library (`BIOCPROMISC` and `BIOCFLUSH` are written inline), and request codes appear only as constructors of `Ioctl.Request`.
- Control calls that only pass a value through: buffer length get/set, read filter, promiscuous mode, flush, read timeout and statistics. Their only behaviour is the kernel's.
- The direction control calls (`get_direction`/`set_direction`): the functions they call are not part of this model.
- Unsafe memory behaviour: the unaligned `ptr::read` of headers, the vector leaked by `mem::forget` in `bpf_filter!`, the validity of `bf_insns`, and closing the descriptor on drop.
- The `DLT_*` constant values: they come from the C library; layers are carried as opaque raw values.
- UTF-8: interface names are taken as their bytes (`str::as_bytes`); the encoding of `&str` is not modelled.
- Errno values: `NODEV` is 19 and `INVAL` is 22, as numbered on BSD and Darwin. Other errors are whatever the OS oracle returns.
- Timestamps: `timeval32` is carried as its two stored 32-bit words. `Timeval32.Sec`/`Usec` read them as `i32`.
- Frames.Drain: a run is bounded by `fuel` calls, because a header with `bh_hdrlen + bh_caplen == 0` never advances. A run that is still yielding when the fuel runs out ends in `OutOfFuel`.
- Frames.Step: `bh_caplen as usize` and `bh_hdrlen + bh_caplen` are taken on a 64-bit target, where neither overflows.
- Frames.RecordsYield: covers records of at least 20 bytes, the ones read whatever follows. A shorter record is read only when the bytes after it make up 20; `Frames.StepDecodesRecord` states that case for a given tail.
- Frames.DecodesBackToBack: states records of at least 20 bytes each. A shorter trailing record is dropped, as `Frames.ShortRecordDropped` states.
- Sync.OpenDevice: `Mode::empty()` is not passed to the oracle, since it is the same on every call.

## Findings

| source | as written | input that shows it | evidently intended | confidence | as-written member | corrected member |
|---|---|---|---|---|---|---|
| src/bsd/sync.rs:134 | `next` returns `None` only when the remainder is shorter than `bh_caplen`, then slices `buf[bh_hdrlen..]` and splits at `bh_caplen`, which panics when `bh_hdrlen + bh_caplen` exceeds the remainder | a 20-byte read holding one header with `bh_caplen = 4`, `bh_hdrlen = 20` (a trailing record truncated by the end of the read) | return `None` when the remainder is shorter than `bh_hdrlen + bh_caplen`, so a truncated trailing record ends the iteration | not executed; medium: the kernel normally writes whole records | Frames.TruncatedRecordExample | Frames.StepChecked |
