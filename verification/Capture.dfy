/** Classic capture files: the writer, the reader, and what reading back what was written gives (draft-ietf-opsawg-pcap). */
module Capture {
  import opened Wrappers
  import opened Words
  import opened Clock

  const MAGIC: u32 := 0xa1b2_c3d4
  const MAGIC_SWAPPED: u32 := 0xd4c3_b2a1
  const MAGIC_NS: u32 := 0xa1b2_3c4d
  const MAGIC_NS_SWAPPED: u32 := 0x4d3c_b2a1
  const SECTION_HEADER: u32 := 0x0a0d_0d0a
  const SNAPLEN: u32 := 262_144
  const MAX_PACKET_BYTES: u32 := 262_144
  const FILE_HEADER: nat := 24
  const RECORD_HEADER: nat := 16

  datatype LinkType = Null | Ethernet | Raw | LinuxSll | LinuxSll2 | Loop | Other(value: u32)

  function LinkFromU32(v: u32): LinkType {
    if v == 0 then Null
    else if v == 1 then Ethernet
    else if v == 12 || v == 14 || v == 101 then Raw
    else if v == 108 then Loop
    else if v == 113 then LinuxSll
    else if v == 276 then LinuxSll2
    else Other(v)
  }

  function LinkToU32(l: LinkType): u32 {
    match l
    case Null => 0
    case Ethernet => 1
    case Raw => 101
    case Loop => 108
    case LinuxSll => 113
    case LinuxSll2 => 276
    case Other(v) => v
  }

  /** The link types the reader can produce. */
  predicate CanonicalLink(l: LinkType) {
    l.Other? ==> LinkFromU32(l.value) == l
  }

  /** A link type survives being written and read exactly when it is canonical. */
  lemma LinkRoundTrip(l: LinkType)
    ensures LinkFromU32(LinkToU32(l)) == l <==> CanonicalLink(l)
  {
  }

  /** What each number means; every other number is kept as it is. */
  lemma LinkNumbers(v: u32)
    ensures LinkFromU32(v) == Null <==> v == 0
    ensures LinkFromU32(v) == Ethernet <==> v == 1
    ensures LinkFromU32(v) == Raw <==> v in {12, 14, 101}
    ensures LinkFromU32(v) == Loop <==> v == 108
    ensures LinkFromU32(v) == LinuxSll <==> v == 113
    ensures LinkFromU32(v) == LinuxSll2 <==> v == 276
    ensures LinkFromU32(v) == Other(v) <==> v !in {0, 1, 12, 14, 101, 108, 113, 276}
  {
  }

  datatype RawPacket = RawPacket(index: nat, timestamp: Timestamp, capturedLen: u32, wireLen: u32, data: seq<byte>)

  /** `RawPacket::new`. */
  function NewPacket(index: nat, timestamp: Timestamp, wireLen: u32, data: seq<byte>): RawPacket {
    RawPacket(index, timestamp, Wrap32(|data|), wireLen, data)
  }

  /** What can be wrong inside a pcapng file. */
  datatype Problem =
    | ShortInterface
    | ShortPacket
    | Overlong(index: nat, claimed: u32, held: nat)
    | BadByteOrder(magic: u32)
    | BadSectionLength(len: u32)
    | BadBlock(blockType: u32, len: u32)

  /** `SectionFile` says that the bytes are a pcapng file, which module `Sections` opens. */
  datatype CaptureError =
    | UnexpectedEof
    | SectionFile
    | UnknownFormat(magic: u32)
    | ImplausibleLength(index: nat, len: u32)
    | Malformed(problem: Problem)

  // ---------------------------------------------------------------------------------------------------------------
  // Words in either byte order
  // ---------------------------------------------------------------------------------------------------------------

  function Le32(v: u32): (b: seq<byte>)
    ensures |b| == 4
  {
    [v % 0x100, v / 0x100 % 0x100, v / 0x1_0000 % 0x100, v / 0x100_0000]
  }

  function Le16(v: u16): (b: seq<byte>)
    ensures |b| == 2
  {
    [v % 0x100, v / 0x100]
  }

  /** `u32::from_le_bytes` of four bytes at an offset. */
  function FromLe32(b: seq<byte>, at: nat): u32
    requires at + 4 <= |b|
  {
    (b[at] as int) + 0x100 * (b[at + 1] as int) + 0x1_0000 * (b[at + 2] as int) + 0x100_0000 * (b[at + 3] as int)
  }

  /** `u32::swap_bytes`. */
  function SwapBytes(v: u32): u32 {
    v / 0x100_0000 + 0x100 * (v / 0x1_0000 % 0x100) + 0x1_0000 * (v / 0x100 % 0x100) + 0x100_0000 * (v % 0x100)
  }

  function Read32(bigEndian: bool, b: seq<byte>, at: nat): u32
    requires at + 4 <= |b|
  {
    var v := FromLe32(b, at);
    if bigEndian then SwapBytes(v) else v
  }

  lemma ReadWithin(bigEndian: bool, b: seq<byte>, n: nat)
    requires n <= |b|
    ensures forall at: nat :: at + 4 <= n ==> Read32(bigEndian, b[..n], at) == Read32(bigEndian, b, at)
  {
    hide SwapBytes;
  }

  /** The same word as a file of either byte order stores it. */
  function Stored32(bigEndian: bool, v: u32): (b: seq<byte>)
    ensures |b| == 4
  {
    if bigEndian then [v / 0x100_0000, v / 0x1_0000 % 0x100, v / 0x100 % 0x100, v % 0x100] else Le32(v)
  }

  lemma FourBytes(v: u32)
    ensures v % 0x100 + 0x100 * (v / 0x100 % 0x100) + 0x1_0000 * (v / 0x1_0000 % 0x100) + 0x100_0000 * (v / 0x100_0000) == v
  {
  }

  lemma SwapOfBytes(a: byte, b: byte, c: byte, d: byte)
    ensures SwapBytes(a + 0x100 * b + 0x1_0000 * c + 0x100_0000 * d) == d + 0x100 * c + 0x1_0000 * b + 0x100_0000 * a
  {
    var v: u32 := a + 0x100 * b + 0x1_0000 * c + 0x100_0000 * d;
    assert v / 0x100_0000 == d && v / 0x1_0000 == c + 0x100 * d && v / 0x100 == b + 0x100 * c + 0x1_0000 * d;
    assert v / 0x1_0000 % 0x100 == c && v / 0x100 % 0x100 == b && v % 0x100 == a;
  }

  /** Swapping is how the reader sees a word of the other byte order. */
  lemma StoredIsRead(bigEndian: bool, v: u32, b: seq<byte>, at: nat)
    requires at + 4 <= |b| && b[at..at + 4] == Stored32(bigEndian, v)
    ensures Read32(bigEndian, b, at) == v
  {
    var s := Stored32(bigEndian, v);
    assert b[at] == b[at..at + 4][0] && b[at + 1] == b[at..at + 4][1] && b[at + 2] == b[at..at + 4][2] && b[at + 3] == b[at..at + 4][3];
    FourBytes(v);
    if bigEndian {
      SwapOfBytes(s[0], s[1], s[2], s[3]);
    }
  }

  // ---------------------------------------------------------------------------------------------------------------
  // Files as bytes
  // ---------------------------------------------------------------------------------------------------------------

  /** The header fields of a record, and its bytes. */
  datatype Record = Record(sec: u32, frac: u32, capLen: u32, wireLen: u32, data: seq<byte>)

  datatype Flavour = Flavour(bigEndian: bool, nanosecond: bool, link: u32)

  function RecordHeader(f: Flavour, r: Record): (b: seq<byte>)
    ensures |b| == RECORD_HEADER
  {
    Stored32(f.bigEndian, r.sec) + Stored32(f.bigEndian, r.frac) + Stored32(f.bigEndian, r.capLen) + Stored32(f.bigEndian, r.wireLen)
  }

  function RecordBytes(f: Flavour, r: Record): seq<byte> {
    RecordHeader(f, r) + r.data
  }

  function RecordsBytes(f: Flavour, rs: seq<Record>): seq<byte> {
    if rs == [] then [] else RecordBytes(f, rs[0]) + RecordsBytes(f, rs[1..])
  }

  function MagicOf(f: Flavour): u32 {
    if f.nanosecond then MAGIC_NS else MAGIC
  }

  /** Version 2.4, no zone offset, no accuracy, the snapshot length, and the link type. */
  function FileHeader(f: Flavour): (b: seq<byte>)
    ensures |b| == FILE_HEADER
  {
    var version := if f.bigEndian then [0, 2, 0, 4] else [2, 0, 4, 0];
    Stored32(f.bigEndian, MagicOf(f)) + version + Stored32(f.bigEndian, 0) + Stored32(f.bigEndian, 0)
    + Stored32(f.bigEndian, SNAPLEN) + Stored32(f.bigEndian, f.link)
  }

  function FileBytes(f: Flavour, rs: seq<Record>): seq<byte> {
    FileHeader(f) + RecordsBytes(f, rs)
  }

  // ---------------------------------------------------------------------------------------------------------------
  // The writer
  // ---------------------------------------------------------------------------------------------------------------

  /** What `write` stores of a packet; seconds and length are cut to 32 bits. */
  function Written(p: RawPacket): Record
    requires p.timestamp.nanos < TWO32
  {
    Record(Wrap32(p.timestamp.secs), p.timestamp.nanos, Wrap32(|p.data|), p.wireLen, p.data)
  }

  class PcapWriter {
    var out: seq<byte>
    var packets: nat
    var bytes: nat

    /** `create`. */
    constructor (link: LinkType)
      ensures out == FileBytes(Flavour(false, true, LinkToU32(link)), []) && packets == 0 && bytes == 0
    {
      var header := Le32(MAGIC_NS);
      header := header + Le16(2);
      header := header + Le16(4);
      header := header + Le32(0);
      header := header + Le32(0);
      header := header + Le32(SNAPLEN);
      header := header + Le32(LinkToU32(link));
      out := header;
      packets, bytes := 0, 0;
    }

    method Write(p: RawPacket)
      requires p.timestamp.nanos < TWO32
      modifies this
      ensures forall f: Flavour :: !f.bigEndian ==> out == old(out) + RecordBytes(f, Written(p))
      ensures packets == old(packets) + 1 && bytes == old(bytes) + |p.data|
    {
      out := out + Le32(Wrap32(p.timestamp.secs));
      out := out + Le32(p.timestamp.nanos);
      out := out + Le32(Wrap32(|p.data|));
      out := out + Le32(p.wireLen);
      out := out + p.data;
      packets := packets + 1;
      bytes := bytes + |p.data|;
    }
  }

  function AllWritten(ps: seq<RawPacket>): (rs: seq<Record>)
    requires forall i :: 0 <= i < |ps| ==> ps[i].timestamp.nanos < TWO32
    ensures |rs| == |ps|
  {
    seq(|ps|, i requires 0 <= i < |ps| => Written(ps[i]))
  }

  lemma {:induction false} RecordsSnoc(f: Flavour, rs: seq<Record>, r: Record)
    ensures RecordsBytes(f, rs + [r]) == RecordsBytes(f, rs) + RecordBytes(f, r)
    decreases |rs|
  {
    if rs == [] {
      assert [] + [r] == [r] && [r][1..] == [];
    } else {
      RecordsSnoc(f, rs[1..], r);
      assert (rs + [r])[1..] == rs[1..] + [r];
    }
  }

  /** A capture session: create, then write each packet. The result is a capture file in the sense of this model. */
  method WriteAll(link: LinkType, ps: seq<RawPacket>) returns (w: PcapWriter)
    requires forall i :: 0 <= i < |ps| ==> ps[i].timestamp.nanos < TWO32
    ensures fresh(w) && w.out == FileBytes(Flavour(false, true, LinkToU32(link)), AllWritten(ps)) && w.packets == |ps|
  {
    ghost var f := Flavour(false, true, LinkToU32(link));
    w := new PcapWriter(link);
    var i := 0;
    assert AllWritten(ps[..0]) == [];
    while i < |ps|
      invariant 0 <= i <= |ps| && fresh(w)
      invariant w.out == FileBytes(f, AllWritten(ps[..i])) && w.packets == i
    {
      w.Write(ps[i]);
      assert AllWritten(ps[..i + 1]) == AllWritten(ps[..i]) + [Written(ps[i])];
      RecordsSnoc(f, AllWritten(ps[..i]), Written(ps[i]));
      i := i + 1;
    }
    assert ps[..i] == ps;
  }

  // ---------------------------------------------------------------------------------------------------------------
  // The reader
  // ---------------------------------------------------------------------------------------------------------------

  /** An open reader: the bytes it has not read yet, and what the file header said. */
  datatype Reader = Reader(rest: seq<byte>, bigEndian: bool, nanosecond: bool, link: LinkType, index: nat, finished: bool)

  type Item = Option<Result<RawPacket, CaptureError>>

  function TimeOf(nanosecond: bool, sec: u32, frac: u32): Timestamp {
    if nanosecond then At(sec, frac) else FromMicros(sec, frac)
  }

  /** `next_packet` on a classic file. */
  function Next(r: Reader): (Reader, Item) {
    if r.finished then (r, None)
    else if |r.rest| < RECORD_HEADER then (r.(rest := [], finished := true), None)
    else
      var sec, frac := Read32(r.bigEndian, r.rest, 0), Read32(r.bigEndian, r.rest, 4);
      var capLen, wireLen := Read32(r.bigEndian, r.rest, 8), Read32(r.bigEndian, r.rest, 12);
      var body := r.rest[RECORD_HEADER..];
      if capLen > MAX_PACKET_BYTES then
        (r.(rest := body, index := r.index + 1, finished := true), Some(Err(ImplausibleLength(r.index + 1, capLen))))
      else if |body| < capLen then (r.(rest := [], index := r.index + 1, finished := true), None)
      else
        (r.(rest := body[capLen..], index := r.index + 1),
         Some(Ok(NewPacket(r.index + 1, TimeOf(r.nanosecond, sec, frac), Max(wireLen, capLen), body[..capLen]))))
  }

  /** `from_bytes`: the magic tells the byte order and the resolution. */
  function Open(b: seq<byte>): Result<Reader, CaptureError> {
    if |b| < 4 then Err(UnexpectedEof)
    else
      var magic := FromLe32(b, 0);
      if magic == SECTION_HEADER then Err(SectionFile)
      else if magic != MAGIC && magic != MAGIC_NS && magic != MAGIC_SWAPPED && magic != MAGIC_NS_SWAPPED then Err(UnknownFormat(magic))
      else if |b| < FILE_HEADER then Err(UnexpectedEof)
      else
        var bigEndian := magic == MAGIC_SWAPPED || magic == MAGIC_NS_SWAPPED;
        var nanosecond := magic == MAGIC_NS || magic == MAGIC_NS_SWAPPED;
        Ok(Reader(b[FILE_HEADER..], bigEndian, nanosecond, LinkFromU32(Read32(bigEndian, b, 20)), 0, false))
  }

  class FileSource {
    var rest: seq<byte>
    var bigEndian: bool
    var nanosecondTs: bool
    var linkType: LinkType
    var index: nat
    var finished: bool

    ghost function View(): Reader
      reads this
    {
      Reader(rest, bigEndian, nanosecondTs, linkType, index, finished)
    }

    constructor (bytes: seq<byte>)
      ensures View() == Reader(bytes, false, false, Ethernet, 0, false)
    {
      rest, bigEndian, nanosecondTs, linkType, index, finished := bytes, false, false, Ethernet, 0, false;
    }

    /** `read_exact`: all `n` bytes, or the end of the input. */
    method ReadExact(n: nat) returns (r: Result<seq<byte>, CaptureError>)
      modifies `rest
      ensures if |old(rest)| < n then r == Err(UnexpectedEof) && rest == []
              else r == Ok(old(rest)[..n]) && rest == old(rest)[n..]
    {
      if |rest| < n {
        rest := [];
        return Err(UnexpectedEof);
      }
      r := Ok(rest[..n]);
      rest := rest[n..];
    }

    /** `read_pcap_header`: the 20 bytes after the magic. */
    method ReadPcapHeader(big: bool, nano: bool) returns (failure: Option<CaptureError>)
      modifies this
      ensures failure.Some? <==> |old(rest)| < 20
      ensures failure.Some? ==> failure == Some(UnexpectedEof)
      ensures failure.None? ==>
                View() == Reader(old(rest)[20..], big, nano, LinkFromU32(Read32(big, old(rest), 16)), old(index), old(finished))
    {
      bigEndian := big;
      nanosecondTs := nano;
      var header := ReadExact(20);
      if header.Err? {
        return Some(header.error);
      }
      linkType := LinkFromU32(Read32(bigEndian, header.value, 16));
      return None;
    }

    /** `next_packet`. */
    method NextPacket() returns (item: Item)
      modifies this
      ensures (View(), item) == Next(old(View()))
    {
      hide Read32, TimeOf;
      if finished {
        return None;
      }
      var header := ReadExact(RECORD_HEADER);
      if header.Err? {
        finished := true;
        return None;
      }
      var hdr := header.value;
      var tsSec, tsFrac := Read32(bigEndian, hdr, 0), Read32(bigEndian, hdr, 4);
      var capLen, wireLen := Read32(bigEndian, hdr, 8), Read32(bigEndian, hdr, 12);
      ReadWithin(bigEndian, old(rest), RECORD_HEADER);
      index := index + 1;
      if capLen > MAX_PACKET_BYTES {
        finished := true;
        return Some(Err(ImplausibleLength(index, capLen)));
      }
      var data := ReadExact(capLen);
      if data.Err? {
        finished := true;
        return None;
      }
      return Some(Ok(NewPacket(index, TimeOf(nanosecondTs, tsSec, tsFrac), Max(wireLen, capLen), data.value)));
    }
  }

  /** `from_bytes`, for a classic file. */
  method OpenSource(bytes: seq<byte>) returns (r: Result<FileSource, CaptureError>)
    ensures r.Ok? <==> Open(bytes).Ok?
    ensures r.Ok? ==> fresh(r.value) && r.value.View() == Open(bytes).value
    ensures r.Err? ==> r.error == Open(bytes).error
  {
    var source := new FileSource(bytes);
    var magicBytes := source.ReadExact(4);
    if magicBytes.Err? {
      return Err(magicBytes.error);
    }
    var magic := FromLe32(magicBytes.value, 0);
    var failure;
    if magic == MAGIC {
      failure := source.ReadPcapHeader(false, false);
    } else if magic == MAGIC_NS {
      failure := source.ReadPcapHeader(false, true);
    } else if magic == MAGIC_SWAPPED {
      failure := source.ReadPcapHeader(true, false);
    } else if magic == MAGIC_NS_SWAPPED {
      failure := source.ReadPcapHeader(true, true);
    } else if magic == SECTION_HEADER {
      return Err(SectionFile);
    } else {
      return Err(UnknownFormat(magic));
    }
    if failure.Some? {
      return Err(failure.value);
    }
    assert bytes[4..][20..] == bytes[FILE_HEADER..];
    return Ok(source);
  }
}
