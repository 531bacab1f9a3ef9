/** Reading back what was written, whole or cut off anywhere. */
module CaptureRoundTrip {
  import opened Wrappers
  import opened Words
  import opened Clock
  import opened Capture

  /** Everything a reader still has to give. */
  ghost function Drain(r: Reader): seq<Result<RawPacket, CaptureError>>
    decreases |r.rest|
  {
    var (r', item) := Next(r);
    if item.None? then [] else [item.value] + Drain(r')
  }

  ghost predicate Readable(r: Record) {
    r.capLen == |r.data| <= 262_144
  }

  ghost predicate AllReadable(rs: seq<Record>) {
    forall i :: 0 <= i < |rs| ==> Readable(rs[i])
  }

  /** The nanoseconds since the epoch that a record's two time fields stand for. */
  function Instant(nanosecond: bool, sec: u32, frac: u32): nat {
    sec * 1_000_000_000 + if nanosecond then frac else if frac < 4_294_968 then frac * 1_000 else 0xFFFF_FFFF
  }

  /** An instant in whole seconds and the nanoseconds left over. */
  function Split(instant: nat): (t: Timestamp)
    ensures t.nanos < 1_000_000_000 && t.secs * 1_000_000_000 + t.nanos == instant
  {
    Timestamp(instant / 1_000_000_000, instant % 1_000_000_000)
  }

  /** The reader's timestamp is the record's instant: exact, but for microseconds that do not fit 32 bits of nanoseconds. */
  lemma TimeIsInstant(nanosecond: bool, sec: u32, frac: u32)
    ensures TimeOf(nanosecond, sec, frac) == Split(Instant(nanosecond, sec, frac))
    ensures Instant(nanosecond, sec, frac) == sec * 1_000_000_000 + frac * (if nanosecond then 1 else 1_000)
            <==> nanosecond || frac < 4_294_968
  {
  }

  /** The packet a record should be read as: the larger of the two lengths is the one on the wire. */
  ghost function Meant(f: Flavour, r: Record, index: nat): RawPacket
    requires Readable(r)
  {
    RawPacket(index, Split(Instant(f.nanosecond, r.sec, r.frac)), |r.data|, if r.wireLen < r.capLen then r.capLen else r.wireLen, r.data)
  }

  ghost function AllMeant(f: Flavour, rs: seq<Record>, index: nat): seq<Result<RawPacket, CaptureError>>
    requires AllReadable(rs)
  {
    if rs == [] then [] else [Ok(Meant(f, rs[0], index + 1))] + AllMeant(f, rs[1..], index + 1)
  }

  ghost function ReaderAt(f: Flavour, rest: seq<byte>, index: nat): Reader {
    Reader(rest, f.bigEndian, f.nanosecond, LinkFromU32(f.link), index, false)
  }

  lemma HeaderRead(f: Flavour, r: Record, rest: seq<byte>)
    requires |rest| >= RECORD_HEADER && rest[..RECORD_HEADER] == RecordHeader(f, r)
    ensures Read32(f.bigEndian, rest, 0) == r.sec && Read32(f.bigEndian, rest, 4) == r.frac
    ensures Read32(f.bigEndian, rest, 8) == r.capLen && Read32(f.bigEndian, rest, 12) == r.wireLen
  {
    hide Read32, Stored32;
    var h := RecordHeader(f, r);
    var a, b, c, d := Stored32(f.bigEndian, r.sec), Stored32(f.bigEndian, r.frac), Stored32(f.bigEndian, r.capLen), Stored32(f.bigEndian, r.wireLen);
    assert h[0..4] == a && h[4..8] == b && h[8..12] == c && h[12..16] == d;
    assert rest[0..4] == h[0..4] && rest[4..8] == h[4..8] && rest[8..12] == h[8..12] && rest[12..16] == h[12..16];
    StoredIsRead(f.bigEndian, r.sec, rest, 0);
    StoredIsRead(f.bigEndian, r.frac, rest, 4);
    StoredIsRead(f.bigEndian, r.capLen, rest, 8);
    StoredIsRead(f.bigEndian, r.wireLen, rest, 12);
  }

  /** One record is read as what it means, and the reader stands behind it. */
  lemma RecordRead(f: Flavour, r: Record, tail: seq<byte>, index: nat)
    requires Readable(r)
    ensures Next(ReaderAt(f, RecordBytes(f, r) + tail, index)) == (ReaderAt(f, tail, index + 1), Some(Ok(Meant(f, r, index + 1))))
  {
    hide RecordHeader, Read32, TimeOf, Split, Instant;
    TimeIsInstant(f.nanosecond, r.sec, r.frac);
    var rest := RecordBytes(f, r) + tail;
    assert rest[..RECORD_HEADER] == RecordHeader(f, r);
    assert rest[RECORD_HEADER..] == r.data + tail;
    assert (r.data + tail)[..|r.data|] == r.data && (r.data + tail)[|r.data|..] == tail;
    HeaderRead(f, r, rest);
  }

  /** A record that is not all there is the quiet end of the file. */
  lemma RecordCut(f: Flavour, r: Record, rest: seq<byte>, index: nat)
    requires Readable(r) && |rest| < |RecordBytes(f, r)| && rest == RecordBytes(f, r)[..|rest|]
    ensures Next(ReaderAt(f, rest, index)).1 == None
  {
    hide RecordHeader, Read32, TimeOf;
    if |rest| >= RECORD_HEADER {
      assert rest[..RECORD_HEADER] == RecordHeader(f, r);
      HeaderRead(f, r, rest);
    }
  }

  /** How many records fit whole in `room` bytes. */
  ghost function Fitting(f: Flavour, rs: seq<Record>, room: nat): (n: nat)
    ensures n <= |rs|
  {
    if rs == [] || |RecordBytes(f, rs[0])| > room then 0 else 1 + Fitting(f, rs[1..], room - |RecordBytes(f, rs[0])|)
  }

  lemma {:induction false} CutRead(f: Flavour, rs: seq<Record>, n: nat, index: nat)
    requires AllReadable(rs) && n <= |RecordsBytes(f, rs)|
    ensures Drain(ReaderAt(f, RecordsBytes(f, rs)[..n], index)) == AllMeant(f, rs[..Fitting(f, rs, n)], index)
    decreases |rs|
  {
    hide RecordBytes, Next, ReaderAt, Meant;
    if rs == [] {
      NothingRead(f, index);
      assert RecordsBytes(f, rs)[..n] == [];
    } else {
      var first, rest := RecordBytes(f, rs[0]), RecordsBytes(f, rs[1..]);
      if |first| > n {
        assert RecordsBytes(f, rs)[..n] == first[..n];
        RecordCut(f, rs[0], first[..n], index);
      } else {
        assert RecordsBytes(f, rs)[..n] == first + rest[..n - |first|];
        RecordRead(f, rs[0], rest[..n - |first|], index);
        CutRead(f, rs[1..], n - |first|, index + 1);
        var kept := Fitting(f, rs, n);
        assert rs[..kept][1..] == rs[1..][..kept - 1];
      }
    }
  }

  lemma NothingRead(f: Flavour, index: nat)
    ensures Next(ReaderAt(f, [], index)).1 == None
  {
  }

  lemma {:induction false} AllFit(f: Flavour, rs: seq<Record>)
    ensures Fitting(f, rs, |RecordsBytes(f, rs)|) == |rs|
    decreases |rs|
  {
    if rs != [] {
      AllFit(f, rs[1..]);
    }
  }

  lemma HeaderFields(f: Flavour, body: seq<byte>)
    ensures var b := FileHeader(f) + body;
            && b[..4] == Stored32(f.bigEndian, MagicOf(f))
            && b[20..24] == Stored32(f.bigEndian, f.link)
            && b[FILE_HEADER..] == body
  {
    hide Stored32, MagicOf;
    var b := FileHeader(f) + body;
    assert b[..4] == FileHeader(f)[..4] && b[20..24] == FileHeader(f)[20..24];
  }

  /** The magic, read as a little-endian word, tells the byte order and the resolution. */
  lemma MagicRead(f: Flavour, b: seq<byte>)
    requires |b| >= 4 && b[..4] == Stored32(f.bigEndian, MagicOf(f))
    ensures FromLe32(b, 0) == if f.bigEndian then (if f.nanosecond then MAGIC_NS_SWAPPED else MAGIC_SWAPPED) else MagicOf(f)
  {
    assert b[0] == b[..4][0] && b[1] == b[..4][1] && b[2] == b[..4][2] && b[3] == b[..4][3];
    MagicBytes(f);
    hide Stored32;
  }

  /** The four bytes each flavour starts with. */
  lemma MagicBytes(f: Flavour)
    ensures Stored32(f.bigEndian, MagicOf(f)) ==
            if f.bigEndian then (if f.nanosecond then [0xa1, 0xb2, 0x3c, 0x4d] else [0xa1, 0xb2, 0xc3, 0xd4])
            else (if f.nanosecond then [0x4d, 0x3c, 0xb2, 0xa1] else [0xd4, 0xc3, 0xb2, 0xa1])
  {
  }

  /** A file header opens a reader of its own byte order and resolution. */
  lemma HeaderOpens(f: Flavour, body: seq<byte>)
    ensures Open(FileHeader(f) + body) == Ok(ReaderAt(f, body, 0))
  {
    hide FileHeader, FromLe32, Read32, Stored32, LinkFromU32;
    var b := FileHeader(f) + body;
    HeaderFields(f, body);
    MagicRead(f, b);
    StoredIsRead(f.bigEndian, f.link, b, 20);
  }

  /**
   The prefix law. A file of either byte order and either resolution, cut anywhere after its header, reads without an
   error as exactly the records that are still whole.
   */
  lemma PrefixLaw(f: Flavour, rs: seq<Record>, n: nat)
    requires AllReadable(rs) && FILE_HEADER <= n <= |FileBytes(f, rs)|
    ensures Open(FileBytes(f, rs)[..n]).Ok?
    ensures Drain(Open(FileBytes(f, rs)[..n]).value) == AllMeant(f, rs[..Fitting(f, rs, n - FILE_HEADER)], 0)
  {
    hide FileHeader, Open, Drain;
    var body := RecordsBytes(f, rs);
    assert FileBytes(f, rs)[..n] == FileHeader(f) + body[..n - FILE_HEADER];
    HeaderOpens(f, body[..n - FILE_HEADER]);
    CutRead(f, rs, n - FILE_HEADER, 0);
  }

  /** Cut inside its header a file does not open. */
  lemma HeaderCut(f: Flavour, rs: seq<Record>, n: nat)
    requires n < FILE_HEADER
    ensures Open(FileBytes(f, rs)[..n]) == Err(UnexpectedEof)
  {
    hide FileHeader, FromLe32, Stored32, RecordsBytes;
    var b := FileBytes(f, rs)[..n];
    if n >= 4 {
      HeaderFields(f, RecordsBytes(f, rs));
      assert b[..4] == FileBytes(f, rs)[..4];
      MagicRead(f, b);
    }
  }

  // ---------------------------------------------------------------------------------------------------------------
  // The writer against the reader
  // ---------------------------------------------------------------------------------------------------------------

  ghost predicate SameItems(items: seq<Result<RawPacket, CaptureError>>, ps: seq<RawPacket>) {
    |items| == |ps| && forall i :: 0 <= i < |ps| ==> items[i] == Ok(ps[i])
  }

  /** What writing and reading preserve of a packet that is the `index`th of its file. */
  ghost predicate Faithful(p: RawPacket, index: nat) {
    && p.index == index && p.capturedLen == |p.data| <= 262_144
    && p.wireLen >= p.capturedLen
    && 0 <= p.timestamp.secs < 0x1_0000_0000 && p.timestamp.nanos < 1_000_000_000
  }

  ghost predicate AllFaithful(ps: seq<RawPacket>, index: nat) {
    forall i :: 0 <= i < |ps| ==> Faithful(ps[i], index + i + 1)
  }

  ghost predicate Writable(ps: seq<RawPacket>) {
    forall i :: 0 <= i < |ps| ==> ps[i].timestamp.nanos < TWO32
  }

  ghost function LittleNano(link: u32): Flavour {
    Flavour(false, true, link)
  }

  /** The bytes every written file begins with: magic, version 2.4, two zero words, a snapshot length of 262144, the link. */
  lemma HeaderBytes(link: u32)
    ensures FileHeader(LittleNano(link)) ==
            [0x4d, 0x3c, 0xb2, 0xa1, 2, 0, 4, 0, 0, 0, 0, 0, 0, 0, 0, 0, 0, 0, 4, 0] + Stored32(false, link)
  {
    MagicBytes(LittleNano(link));
    assert Stored32(false, 0) == [0, 0, 0, 0];
    assert Stored32(false, SNAPLEN) == [0, 0, 4, 0];
  }

  /** The first packet back from the file is the first packet written exactly when that packet is faithful. */
  lemma FirstBack(link: u32, p: RawPacket, tail: seq<byte>, index: nat)
    requires p.timestamp.nanos < TWO32
    ensures var (r, item) := Next(ReaderAt(LittleNano(link), RecordBytes(LittleNano(link), Written(p)) + tail, index));
            && (item == Some(Ok(p)) <==> Faithful(p, index + 1))
            && (Faithful(p, index + 1) ==> r == ReaderAt(LittleNano(link), tail, index + 1))
  {
    hide Next, RecordHeader, ReaderAt;
    var f, rec := LittleNano(link), Written(p);
    var rest := RecordBytes(f, rec) + tail;
    assert rest[..RECORD_HEADER] == RecordHeader(f, rec);
    OnlyFaithfulBack(f, p, rest, index);
    if Faithful(p, index + 1) {
      RecordRead(f, rec, tail, index);
      FaithfulMeaning(f, p, index + 1);
    }
  }

  lemma FaithfulMeaning(f: Flavour, p: RawPacket, index: nat)
    requires f.nanosecond && Faithful(p, index)
    ensures Meant(f, Written(p), index) == p
  {
  }

  /** What a record header written from `p` is read as can only be `p` when `p` is faithful. */
  lemma OnlyFaithfulBack(f: Flavour, p: RawPacket, rest: seq<byte>, index: nat)
    requires p.timestamp.nanos < TWO32 && f.nanosecond
    requires |rest| >= RECORD_HEADER && rest[..RECORD_HEADER] == RecordHeader(f, Written(p))
    ensures Next(ReaderAt(f, rest, index)).1 == Some(Ok(p)) ==> Faithful(p, index + 1)
  {
    hide RecordHeader, Read32;
    HeaderRead(f, Written(p), rest);
  }

  lemma {:induction false} BodyBack(link: u32, ps: seq<RawPacket>, index: nat)
    requires Writable(ps)
    ensures SameItems(Drain(ReaderAt(LittleNano(link), RecordsBytes(LittleNano(link), AllWritten(ps)), index)), ps)
            <==> AllFaithful(ps, index)
    decreases |ps|
  {
    hide Next, RecordBytes, ReaderAt, Faithful, Written, LittleNano;
    var f := LittleNano(link);
    if ps == [] {
      NothingRead(f, index);
    } else {
      var tail := RecordsBytes(f, AllWritten(ps[1..]));
      assert AllWritten(ps)[1..] == AllWritten(ps[1..]);
      FirstBack(link, ps[0], tail, index);
      BodyBack(link, ps[1..], index + 1);
      var reader := ReaderAt(f, RecordsBytes(f, AllWritten(ps)), index);
      AllFaithfulSplit(ps, index);
      SameItemsSplit(Drain(reader), ps);
      if Faithful(ps[0], index + 1) {
        assert Drain(reader)[1..] == Drain(ReaderAt(f, tail, index + 1));
      }
    }
  }

  lemma AllFaithfulSplit(ps: seq<RawPacket>, index: nat)
    requires ps != []
    ensures AllFaithful(ps, index) <==> Faithful(ps[0], index + 1) && AllFaithful(ps[1..], index + 1)
  {
    hide Faithful;
    if Faithful(ps[0], index + 1) && AllFaithful(ps[1..], index + 1) {
      forall i | 0 <= i < |ps| ensures Faithful(ps[i], index + i + 1) {
        if i > 0 {
          assert ps[1..][i - 1] == ps[i];
          assert Faithful(ps[1..][i - 1], index + 1 + (i - 1) + 1);
        }
      }
    } else if AllFaithful(ps, index) {
      assert Faithful(ps[0], index + 0 + 1);
      forall i | 0 <= i < |ps[1..]| ensures Faithful(ps[1..][i], index + 1 + i + 1) {
        assert Faithful(ps[i + 1], index + (i + 1) + 1);
      }
    }
  }

  lemma SameItemsSplit(items: seq<Result<RawPacket, CaptureError>>, ps: seq<RawPacket>)
    requires ps != []
    ensures SameItems(items, ps) <==> items != [] && items[0] == Ok(ps[0]) && SameItems(items[1..], ps[1..])
  {
    if items != [] && items[0] == Ok(ps[0]) && SameItems(items[1..], ps[1..]) {
      forall i | 0 <= i < |ps| ensures items[i] == Ok(ps[i]) {
        if i > 0 {
          assert items[1..][i - 1] == items[i] && ps[1..][i - 1] == ps[i];
        }
      }
    }
  }

  /**
   The capture round trip. Reading the file written from some packets gives the same packets, numbered from 1, exactly
   when every packet is faithful: its seconds fit 32 bits, its nanoseconds are a fraction of a second, it holds at
   most 262144 bytes, and its wire length is no less.
   */
  lemma RoundTrip(link: LinkType, ps: seq<RawPacket>)
    requires Writable(ps)
    ensures var source := Open(FileBytes(LittleNano(LinkToU32(link)), AllWritten(ps)));
            && source.Ok?
            && (source.value.link == link <==> CanonicalLink(link))
            && (SameItems(Drain(source.value), ps) <==> AllFaithful(ps, 0))
  {
    hide Open, Drain, AllFaithful, SameItems;
    var f := LittleNano(LinkToU32(link));
    HeaderOpens(f, RecordsBytes(f, AllWritten(ps)));
    LinkRoundTrip(link);
    BodyBack(LinkToU32(link), ps, 0);
  }

  /** Byte order is invisible: files of either order holding the same records read the same. */
  lemma ByteOrderInvisible(link: u32, nanosecond: bool, rs: seq<Record>)
    requires AllReadable(rs)
    ensures var little, big := Flavour(false, nanosecond, link), Flavour(true, nanosecond, link);
            && Open(FileBytes(little, rs)).Ok? && Open(FileBytes(big, rs)).Ok?
            && Drain(Open(FileBytes(little, rs)).value) == Drain(Open(FileBytes(big, rs)).value)
  {
    hide Open, Drain, AllMeant;
    var little, big := Flavour(false, nanosecond, link), Flavour(true, nanosecond, link);
    WholeFile(little, rs);
    WholeFile(big, rs);
    SameMeaning(little, big, rs, 0);
  }

  lemma WholeFile(f: Flavour, rs: seq<Record>)
    requires AllReadable(rs)
    ensures Open(FileBytes(f, rs)).Ok? && Drain(Open(FileBytes(f, rs)).value) == AllMeant(f, rs, 0)
  {
    hide Open, Drain, AllMeant;
    PrefixLaw(f, rs, |FileBytes(f, rs)|);
    AllFit(f, rs);
    assert FileBytes(f, rs)[..|FileBytes(f, rs)|] == FileBytes(f, rs);
    assert rs[..|rs|] == rs;
  }

  lemma {:induction false} SameMeaning(f: Flavour, g: Flavour, rs: seq<Record>, index: nat)
    requires AllReadable(rs) && f.nanosecond == g.nanosecond
    ensures AllMeant(f, rs, index) == AllMeant(g, rs, index)
    decreases |rs|
  {
    if rs != [] {
      SameMeaning(f, g, rs[1..], index + 1);
    }
  }

  // ---------------------------------------------------------------------------------------------------------------
  // Files with something else in them
  // ---------------------------------------------------------------------------------------------------------------

  /** Whole records are read as what they mean, whatever stands behind them, and reading goes on from there. */
  lemma {:induction false} ReadsOn(f: Flavour, rs: seq<Record>, behind: seq<byte>, index: nat)
    requires AllReadable(rs)
    ensures Drain(ReaderAt(f, RecordsBytes(f, rs) + behind, index))
            == AllMeant(f, rs, index) + Drain(ReaderAt(f, behind, index + |rs|))
    decreases |rs|
  {
    hide RecordBytes, Next, ReaderAt, Meant;
    if rs == [] {
      assert RecordsBytes(f, rs) + behind == behind;
    } else {
      var rest := RecordsBytes(f, rs[1..]) + behind;
      assert RecordsBytes(f, rs) + behind == RecordBytes(f, rs[0]) + rest;
      RecordRead(f, rs[0], rest, index);
      ReadsOn(f, rs[1..], behind, index + 1);
      assert ReaderAt(f, behind, index + 1 + |rs[1..]|) == ReaderAt(f, behind, index + |rs|);
    }
  }

  lemma BadRecordStops(f: Flavour, r: Record, behind: seq<byte>, index: nat)
    requires r.capLen > 262_144
    ensures Drain(ReaderAt(f, RecordHeader(f, r) + behind, index)) == [Err(ImplausibleLength(index + 1, r.capLen))]
  {
    hide RecordHeader, Read32, TimeOf;
    var rest := RecordHeader(f, r) + behind;
    assert rest[..RECORD_HEADER] == RecordHeader(f, r);
    HeaderRead(f, r, rest);
    var (after, item) := Next(ReaderAt(f, rest, index));
    assert after.finished && Drain(after) == [];
  }

  /** A record that claims more than 262144 bytes is reported by its number, behind every record in front of it, and ends the file. */
  lemma ImplausibleStops(f: Flavour, rs: seq<Record>, bad: Record, behind: seq<byte>)
    requires AllReadable(rs) && bad.capLen > 262_144
    ensures var source := Open(FileBytes(f, rs) + (RecordHeader(f, bad) + behind));
            && source.Ok?
            && Drain(source.value) == AllMeant(f, rs, 0) + [Err(ImplausibleLength(|rs| + 1, bad.capLen))]
  {
    hide FileHeader, RecordHeader, Open, Drain, AllMeant;
    var tail := RecordHeader(f, bad) + behind;
    assert FileBytes(f, rs) + tail == FileHeader(f) + (RecordsBytes(f, rs) + tail);
    HeaderOpens(f, RecordsBytes(f, rs) + tail);
    ReadsOn(f, rs, tail, 0);
    BadRecordStops(f, bad, behind, |rs|);
  }

  /** The four bytes a classic file may start with. */
  function Magics(): seq<seq<byte>> {
    [[0xd4, 0xc3, 0xb2, 0xa1], [0x4d, 0x3c, 0xb2, 0xa1], [0xa1, 0xb2, 0xc3, 0xd4], [0xa1, 0xb2, 0x3c, 0x4d]]
  }

  lemma OneDigit(a: byte, x: int, b: byte, y: int)
    requires a + 0x100 * x == b + 0x100 * y
    ensures a == b && x == y
  {
  }

  lemma FourDigits(a: byte, b: byte, c: byte, d: byte, e: byte, f: byte, g: byte, h: byte)
    requires a + 0x100 * b + 0x1_0000 * c + 0x100_0000 * d == e + 0x100 * f + 0x1_0000 * g + 0x100_0000 * h
    ensures a == e && b == f && c == g && d == h
  {
    OneDigit(a, b + 0x100 * c + 0x1_0000 * d, e, f + 0x100 * g + 0x1_0000 * h);
    OneDigit(b, c + 0x100 * d, f, g + 0x100 * h);
    OneDigit(c, d, g, h);
  }

  lemma FourBytesOf(b: seq<byte>, w: seq<byte>)
    requires |b| >= 4 && |w| == 4
    ensures b[..4] == w <==> FromLe32(b, 0) == FromLe32(w, 0)
  {
    assert b[0] == b[..4][0] && b[1] == b[..4][1] && b[2] == b[..4][2] && b[3] == b[..4][3];
    if FromLe32(b, 0) == FromLe32(w, 0) {
      FourDigits(b[0], b[1], b[2], b[3], w[0], w[1], w[2], w[3]);
      assert b[..4] == w;
    }
  }

  /** A file opens exactly when it starts with one of the four and has a whole header; anything else is told apart. */
  lemma OpensExactly(b: seq<byte>)
    ensures Open(b).Ok? <==> |b| >= 24 && b[..4] in Magics()
    ensures |b| >= 4 ==> (Open(b) == Err(SectionFile) <==> b[..4] == [0x0a, 0x0d, 0x0d, 0x0a])
    ensures |b| >= 4 ==> (Open(b).Err? && Open(b).error.UnknownFormat? <==> b[..4] !in Magics() + [[0x0a, 0x0d, 0x0d, 0x0a]])
  {
    if |b| >= 4 {
      FourBytesOf(b, [0xd4, 0xc3, 0xb2, 0xa1]);
      FourBytesOf(b, [0x4d, 0x3c, 0xb2, 0xa1]);
      FourBytesOf(b, [0xa1, 0xb2, 0xc3, 0xd4]);
      FourBytesOf(b, [0xa1, 0xb2, 0x3c, 0x4d]);
      FourBytesOf(b, [0x0a, 0x0d, 0x0d, 0x0a]);
    }
    hide LinkFromU32, Read32;
  }
}
