/** What a section says, and that reading its bytes, whole or cut off anywhere, says it again. */
module SectionRoundTrip {
  import opened Wrappers
  import opened Words
  import opened Clock
  import Capture
  import CaptureRoundTrip
  import opened Pcapng
  import opened Sections

  type RawPacket = Capture.RawPacket

  const SECTION_MAGIC: u32 := 0x1a2b_3c4d
  const BLOCK_LIMIT: nat := 16_777_216

  /** A block by its content; `filler`, `ending` and `trailer` are bytes the reader passes over. */
  datatype Entry =
    | Described(link: u16, filler: seq<byte>, choices: seq<Choice>, ending: seq<byte>)
    | Captured(id: u32, ticks: u64, wireLen: u32, data: seq<byte>, trailer: seq<byte>)
    | Simple(wireLen: u32, data: seq<byte>)
    | Restarted(filler: seq<byte>)
    | Skipped(blockType: u32, body: seq<byte>)

  ghost predicate ContentFits(bigEndian: bool, e: Entry) {
    match e
    case Described(_, filler, choices, ending) => |filler| == 6 && AllEncodable(choices) && Ends(bigEndian, ending)
    case Captured(_, _, _, data, _) => |data| <= 262_144
    case Skipped(blockType, _) => blockType !in {0x0a0d_0d0a, 1, 3, 6}
    case _ => true
  }

  function TypeOf(e: Entry): u32 {
    match e
    case Described(_, _, _, _) => 1
    case Captured(_, _, _, _, _) => 6
    case Simple(_, _) => 3
    case Restarted(_) => 0x0a0d_0d0a
    case Skipped(blockType, _) => blockType
  }

  ghost function Body(bigEndian: bool, e: Entry): seq<byte>
    requires ContentFits(bigEndian, e)
  {
    match e
    case Described(link, filler, choices, ending) => Stored16(bigEndian, link) + filler + ChoicesBytes(bigEndian, choices) + ending
    case Captured(id, ticks, wireLen, data, trailer) =>
      Capture.Stored32(bigEndian, id) + Capture.Stored32(bigEndian, ticks / TWO32) + Capture.Stored32(bigEndian, ticks % TWO32)
      + Capture.Stored32(bigEndian, |data|) + Capture.Stored32(bigEndian, wireLen) + data + trailer
    case Simple(wireLen, data) => Capture.Stored32(bigEndian, wireLen) + data
    case Restarted(filler) => Capture.Stored32(bigEndian, SECTION_MAGIC) + filler
    case Skipped(_, body) => body
  }

  /** Content that fits, in a body of whole words within the block limit. */
  ghost predicate Fits(bigEndian: bool, e: Entry) {
    && ContentFits(bigEndian, e)
    && |Body(bigEndian, e)| % 4 == 0
    && |Body(bigEndian, e)| + 12 <= BLOCK_LIMIT
  }

  ghost predicate AllFit(bigEndian: bool, es: seq<Entry>) {
    forall i :: 0 <= i < |es| ==> Fits(bigEndian, es[i])
  }

  ghost function BlockBytes(bigEndian: bool, blockType: u32, body: seq<byte>): seq<byte>
    requires |body| + 12 <= BLOCK_LIMIT
  {
    var len := |body| + 12;
    Capture.Stored32(bigEndian, blockType) + Capture.Stored32(bigEndian, len) + body + Capture.Stored32(bigEndian, len)
  }

  ghost function EntryBytes(bigEndian: bool, e: Entry): seq<byte>
    requires Fits(bigEndian, e)
  {
    BlockBytes(bigEndian, TypeOf(e), Body(bigEndian, e))
  }

  ghost function EntriesBytes(bigEndian: bool, es: seq<Entry>): seq<byte>
    requires AllFit(bigEndian, es)
  {
    if es == [] then [] else EntryBytes(bigEndian, es[0]) + EntriesBytes(bigEndian, es[1..])
  }

  // ---------------------------------------------------------------------------------------------------------------
  // Meaning
  // ---------------------------------------------------------------------------------------------------------------

  /** What is known after an entry: described interfaces count up, from nothing again in a new section, and so do packets. */
  ghost function After(s: Section, e: Entry): Section {
    match e
    case Described(link, _, choices, _) =>
      var added := Interface(Capture.LinkFromU32(link), Declared(choices, 1_000_000));
      s.(interfaces := s.interfaces + [added], link := if s.interfaces == [] then added.link else s.link)
    case Restarted(_) => s.(interfaces := [])
    case Skipped(_, _) => s
    case _ => s.(index := s.index + 1)
  }

  /** The ticks a second of interface `id`: what it declared, and a million when there is no such interface. */
  ghost function TicksASecond(s: Section, id: u32): u64 {
    if id < |s.interfaces| then s.interfaces[id].resolution else 1_000_000
  }

  /** The packet of an entry: a captured one is dated by its interface, a simple one not at all. */
  ghost function Meant(s: Section, e: Entry): Option<RawPacket>
    requires Usable(s.interfaces)
  {
    match e
    case Captured(id, ticks, wireLen, data, _) =>
      Some(Capture.RawPacket(s.index + 1, TimeOfTicks(ticks, TicksASecond(s, id)), Wrap32(|data|), Max(wireLen, Wrap32(|data|)), data))
    case Simple(wireLen, data) => Some(Capture.RawPacket(s.index + 1, Timestamp(0, 0), Wrap32(|data|), Max(wireLen, Wrap32(|data|)), data))
    case _ => None
  }

  lemma DeclaredInRange(os: seq<Choice>, otherwise: u64)
    requires 1 <= otherwise <= TWO63
    ensures 1 <= Declared(os, otherwise) <= TWO63
    decreases |os|
  {
    hide ResolutionOf;
    if os != [] {
      var last := os[|os| - 1];
      if NamesResolution(last) {
        ResolutionMeaning(last.value[0]);
      } else {
        DeclaredInRange(os[..|os| - 1], otherwise);
      }
    }
  }

  lemma AfterUsable(s: Section, e: Entry)
    requires Usable(s.interfaces)
    ensures Usable(After(s, e).interfaces)
  {
    if e.Described? {
      DeclaredInRange(e.choices, 1_000_000);
    }
  }

  type Answer = Capture.Item

  ghost function Answers(s: Section, es: seq<Entry>): seq<Answer>
    requires Usable(s.interfaces)
    decreases |es|
  {
    if es == [] then []
    else
      AfterUsable(s, es[0]);
      var later := Answers(After(s, es[0]), es[1..]);
      var packet := Meant(s, es[0]);
      if packet.Some? then [Some(Ok(packet.value))] + later else later
  }

  /** Everything the reader gives until it has no more. */
  ghost function Drain(s: Section): seq<Answer>
    requires Usable(s.interfaces)
    decreases |s.rest|
  {
    var (s', item) := Advance(s);
    if item.None? then [] else [item] + Drain(s')
  }

  // ---------------------------------------------------------------------------------------------------------------
  // One block
  // ---------------------------------------------------------------------------------------------------------------

  /** Where the header of a block and its body lie, in bytes that go on for at least `held`. */
  lemma BlockHeader(bigEndian: bool, blockType: u32, body: seq<byte>, rest: seq<byte>)
    requires |body| + 12 <= BLOCK_LIMIT && |rest| >= 8
    requires rest[..8] == BlockBytes(bigEndian, blockType, body)[..8]
    ensures Capture.Read32(bigEndian, rest, 0) == blockType && Capture.Read32(bigEndian, rest, 4) == |body| + 12
  {
    hide Capture.Stored32, Capture.Read32;
    var b := BlockBytes(bigEndian, blockType, body);
    assert rest[0..4] == rest[..8][0..4] && rest[4..8] == rest[..8][4..8];
    assert b[..8][0..4] == Capture.Stored32(bigEndian, blockType) && b[..8][4..8] == Capture.Stored32(bigEndian, |body| + 12);
    Capture.StoredIsRead(bigEndian, blockType, rest, 0);
    Capture.StoredIsRead(bigEndian, |body| + 12, rest, 4);
  }

  lemma BlockPulled(s: Section, blockType: u32, body: seq<byte>, tail: seq<byte>)
    requires |body| % 4 == 0 && |body| + 12 <= BLOCK_LIMIT
    ensures Pull(s.(rest := BlockBytes(s.bigEndian, blockType, body) + tail)) == Block(s.(rest := tail), blockType, body)
  {
    hide Capture.Stored32, Capture.Read32;
    var rest := BlockBytes(s.bigEndian, blockType, body) + tail;
    assert rest[..8] == BlockBytes(s.bigEndian, blockType, body)[..8];
    BlockHeader(s.bigEndian, blockType, body, rest);
    assert rest[8..][..|body|] == body && rest[8..][|body| + 4..] == tail;
  }

  /** A block cut off ends the walk: quietly, or with an error when only its closing length is torn. */
  lemma BlockTorn(s: Section, blockType: u32, body: seq<byte>, n: nat)
    requires |body| % 4 == 0 && |body| + 12 <= BLOCK_LIMIT && n < |body| + 12
    ensures var p := Pull(s.(rest := BlockBytes(s.bigEndian, blockType, body)[..n]));
            p.Stopped? && p.section.finished
            && p.item == if n >= |body| + 8 then Some(Err(Capture.UnexpectedEof)) else None
  {
    hide Capture.Stored32, Capture.Read32;
    var rest := BlockBytes(s.bigEndian, blockType, body)[..n];
    if n >= 8 {
      assert rest[..8] == BlockBytes(s.bigEndian, blockType, body)[..8];
      BlockHeader(s.bigEndian, blockType, body, rest);
    }
  }

  lemma InterfaceTaken(s: Section, e: Entry)
    requires Usable(s.interfaces) && e.Described? && Fits(s.bigEndian, e)
    ensures Take(s, BLOCK_IDB, Body(s.bigEndian, e)) == (After(s, e), None)
  {
    hide Read16, Stored16, WalkOptions, ChoicesBytes, Declared, Ends, AllEncodable;
    var body := Body(s.bigEndian, e);
    assert body[0..2] == Stored16(s.bigEndian, e.link);
    Stored16IsRead(s.bigEndian, e.link, body, 0);
    assert body[8..] == ChoicesBytes(s.bigEndian, e.choices) + e.ending;
    OptionsMeaning(s.bigEndian, e.choices, e.ending, body, 8, 1_000_000);
    DeclaredInRange(e.choices, 1_000_000);
  }

  lemma PacketFields(bigEndian: bool, e: Entry)
    requires e.Captured? && Fits(bigEndian, e)
    ensures |e.data| <= 262_144
    ensures var body := Body(bigEndian, e);
            && |body| >= 20 + |e.data| && body[20..20 + |e.data|] == e.data
            && Capture.Read32(bigEndian, body, 0) == e.id
            && Capture.Read32(bigEndian, body, 4) == e.ticks / TWO32 && Capture.Read32(bigEndian, body, 8) == e.ticks % TWO32
            && Capture.Read32(bigEndian, body, 12) == |e.data| && Capture.Read32(bigEndian, body, 16) == e.wireLen
  {
    hide Capture.Stored32, Capture.Read32;
    var body := Body(bigEndian, e);
    assert body[0..4] == Capture.Stored32(bigEndian, e.id);
    assert body[4..8] == Capture.Stored32(bigEndian, e.ticks / TWO32);
    assert body[8..12] == Capture.Stored32(bigEndian, e.ticks % TWO32);
    assert body[12..16] == Capture.Stored32(bigEndian, |e.data|);
    assert body[16..20] == Capture.Stored32(bigEndian, e.wireLen);
    Capture.StoredIsRead(bigEndian, e.id, body, 0);
    Capture.StoredIsRead(bigEndian, e.ticks / TWO32, body, 4);
    Capture.StoredIsRead(bigEndian, e.ticks % TWO32, body, 8);
    Capture.StoredIsRead(bigEndian, |e.data|, body, 12);
    Capture.StoredIsRead(bigEndian, e.wireLen, body, 16);
  }

  lemma PacketTaken(s: Section, e: Entry)
    requires Usable(s.interfaces) && e.Captured? && Fits(s.bigEndian, e)
    ensures Take(s, BLOCK_EPB, Body(s.bigEndian, e)) == (After(s, e), Some(Ok(Meant(s, e).value)))
  {
    hide Capture.Read32, Body, TimeOfTicks, Fits;
    PacketFields(s.bigEndian, e);
  }

  lemma SimpleTaken(s: Section, e: Entry)
    requires Usable(s.interfaces) && e.Simple? && Fits(s.bigEndian, e)
    ensures Take(s, BLOCK_SPB, Body(s.bigEndian, e)) == (After(s, e), Some(Ok(Meant(s, e).value)))
  {
    hide Capture.Read32, Capture.Stored32;
    var body := Body(s.bigEndian, e);
    assert body[0..4] == Capture.Stored32(s.bigEndian, e.wireLen) && body[4..] == e.data;
    Capture.StoredIsRead(s.bigEndian, e.wireLen, body, 0);
  }

  /** A section header in the middle of a file, of the byte order so far, forgets the interfaces and nothing else. */
  lemma RestartTaken(s: Section, e: Entry)
    requires Usable(s.interfaces) && e.Restarted? && Fits(s.bigEndian, e)
    ensures Take(s, TypeOf(e), Body(s.bigEndian, e)) == (After(s, e), None)
  {
    hide Capture.Stored32, Capture.FromLe32;
    var body := Body(s.bigEndian, e);
    assert body[0..4] == Capture.Stored32(s.bigEndian, SECTION_MAGIC);
    OrderRead(s.bigEndian, body, 0);
  }

  lemma SkippedTaken(s: Section, e: Entry)
    requires Usable(s.interfaces) && e.Skipped? && Fits(s.bigEndian, e)
    ensures Take(s, TypeOf(e), Body(s.bigEndian, e)) == (After(s, e), None)
  {
  }

  /** A block does what its entry means. */
  lemma EntryTaken(s: Section, e: Entry)
    requires Usable(s.interfaces) && Fits(s.bigEndian, e)
    ensures var packet := Meant(s, e);
            Take(s, TypeOf(e), Body(s.bigEndian, e)) == (After(s, e), if packet.Some? then Some(Ok(packet.value)) else None)
  {
    hide Body, Fits, Take, After;
    match e
    case Described(_, _, _, _) => InterfaceTaken(s, e);
    case Captured(_, _, _, _, _) => PacketTaken(s, e);
    case Simple(_, _) => SimpleTaken(s, e);
    case Restarted(_) => RestartTaken(s, e);
    case Skipped(_, _) => SkippedTaken(s, e);
  }

  // ---------------------------------------------------------------------------------------------------------------
  // Whole sections
  // ---------------------------------------------------------------------------------------------------------------

  /** How many entries `room` bytes hold whole, and whether the next lacks only part of its closing length. */
  ghost function Whole(bigEndian: bool, es: seq<Entry>, room: nat): (r: (nat, bool))
    requires AllFit(bigEndian, es)
    ensures r.0 <= |es|
  {
    if es == [] then (0, false)
    else
      var len := |EntryBytes(bigEndian, es[0])|;
      if len > room then (0, room >= len - 4)
      else
        var (count, torn) := Whole(bigEndian, es[1..], room - len);
        (count + 1, torn)
  }

  ghost function Ending(torn: bool): seq<Answer> {
    if torn then [Some(Err(Capture.UnexpectedEof))] else []
  }

  lemma BodySize(bigEndian: bool, e: Entry)
    requires Fits(bigEndian, e)
    ensures ContentFits(bigEndian, e) && |Body(bigEndian, e)| % 4 == 0 && |Body(bigEndian, e)| + 12 <= BLOCK_LIMIT
  {
  }

  lemma MeantIgnoresRest(s: Section, e: Entry, tail: seq<byte>)
    requires Usable(s.interfaces)
    ensures Meant(s.(rest := tail), e) == Meant(s, e)
  {
  }

  lemma EntryRead(s: Section, e: Entry, tail: seq<byte>)
    requires Usable(s.interfaces) && Fits(s.bigEndian, e) && !s.finished
    ensures Usable(After(s, e).interfaces)
    ensures var packet, next := Meant(s, e), After(s, e).(rest := tail);
            Drain(s.(rest := EntryBytes(s.bigEndian, e) + tail))
            == if packet.Some? then [Some(Ok(packet.value))] + Drain(next) else Drain(next)
  {
    hide Pull, Take, Body, Fits, BlockBytes, Meant;
    AfterUsable(s, e);
    BodySize(s.bigEndian, e);
    BlockPulled(s, TypeOf(e), Body(s.bigEndian, e), tail);
    var held := s.(rest := tail);
    EntryTaken(held, e);
    MeantIgnoresRest(s, e, tail);
  }

  lemma EntryTorn(s: Section, e: Entry, n: nat)
    requires Usable(s.interfaces) && Fits(s.bigEndian, e) && !s.finished && n < |EntryBytes(s.bigEndian, e)|
    ensures Drain(s.(rest := EntryBytes(s.bigEndian, e)[..n])) == Ending(n >= |EntryBytes(s.bigEndian, e)| - 4)
  {
    hide Pull, Take, Body;
    BlockTorn(s, TypeOf(e), Body(s.bigEndian, e), n);
  }

  lemma NoAnswers(s: Section)
    requires Usable(s.interfaces)
    ensures Answers(s, []) == []
  {
  }

  lemma AnswersFirst(s: Section, es: seq<Entry>)
    requires Usable(s.interfaces) && es != []
    ensures Usable(After(s, es[0]).interfaces)
    ensures var packet, later := Meant(s, es[0]), Answers(After(s, es[0]), es[1..]);
            Answers(s, es) == if packet.Some? then [Some(Ok(packet.value))] + later else later
  {
    hide Meant, After;
    AfterUsable(s, es[0]);
  }

  /** A first entry that is whole is read, and the rest is what a cut leaves of the rest. */
  lemma CutFirst(s: Section, es: seq<Entry>, n: nat)
    requires Usable(s.interfaces) && AllFit(s.bigEndian, es) && !s.finished && es != []
    requires |EntryBytes(s.bigEndian, es[0])| <= n <= |EntriesBytes(s.bigEndian, es)|
    ensures Usable(After(s, es[0]).interfaces) && n - |EntryBytes(s.bigEndian, es[0])| <= |EntriesBytes(s.bigEndian, es[1..])|
    ensures var left := EntriesBytes(s.bigEndian, es[1..])[..n - |EntryBytes(s.bigEndian, es[0])|];
            var packet, rest := Meant(s, es[0]), Drain(After(s, es[0]).(rest := left));
            Drain(s.(rest := EntriesBytes(s.bigEndian, es)[..n]))
            == if packet.Some? then [Some(Ok(packet.value))] + rest else rest
  {
    hide EntryBytes, Meant, After, Fits, Drain, Usable;
    var first, rest := EntryBytes(s.bigEndian, es[0]), EntriesBytes(s.bigEndian, es[1..]);
    assert EntriesBytes(s.bigEndian, es)[..n] == first + rest[..n - |first|];
    EntryRead(s, es[0], rest[..n - |first|]);
  }

  lemma WholeFirst(bigEndian: bool, es: seq<Entry>, n: nat)
    requires AllFit(bigEndian, es) && Whole(bigEndian, es, n).0 > 0
    ensures es != [] && AllFit(bigEndian, es[1..]) && |EntryBytes(bigEndian, es[0])| <= n
    ensures var (count, torn) := Whole(bigEndian, es, n);
            && Whole(bigEndian, es[1..], n - |EntryBytes(bigEndian, es[0])|) == (count - 1, torn)
            && es[..count][0] == es[0] && es[..count][1..] == es[1..][..count - 1]
  {
    hide EntryBytes, Fits;
  }

  /** A section cut anywhere reads as the entries still whole, and reports the cut only inside a closing length. */
  lemma {:induction false} CutSection(s: Section, es: seq<Entry>, n: nat)
    requires Usable(s.interfaces) && AllFit(s.bigEndian, es) && !s.finished && n <= |EntriesBytes(s.bigEndian, es)|
    ensures var (count, torn) := Whole(s.bigEndian, es, n);
            Drain(s.(rest := EntriesBytes(s.bigEndian, es)[..n])) == Answers(s, es[..count]) + Ending(torn)
    decreases |es|
  {
    hide EntryBytes, Meant, After, Fits, Whole, Drain, Ending, Answers, Usable, Advance;
    var (count, torn) := Whole(s.bigEndian, es, n);
    if count == 0 {
      NoAnswers(s);
      NothingWhole(s, es, n);
    } else {
      WholeFirst(s.bigEndian, es, n);
      CutFirst(s, es, n);
      AfterKeeps(s, es[0]);
      CutSection(After(s, es[0]), es[1..], n - |EntryBytes(s.bigEndian, es[0])|);
      AnswersFirst(s, es[..count]);
    }
  }

  lemma NothingWhole(s: Section, es: seq<Entry>, n: nat)
    requires Usable(s.interfaces) && AllFit(s.bigEndian, es) && !s.finished && n <= |EntriesBytes(s.bigEndian, es)|
    requires Whole(s.bigEndian, es, n).0 == 0
    ensures Drain(s.(rest := EntriesBytes(s.bigEndian, es)[..n])) == Ending(Whole(s.bigEndian, es, n).1)
  {
    hide EntryBytes, Fits;
    if es == [] {
      assert EntriesBytes(s.bigEndian, es)[..n] == [];
    } else {
      assert EntriesBytes(s.bigEndian, es)[..n] == EntryBytes(s.bigEndian, es[0])[..n];
      EntryTorn(s, es[0], n);
    }
  }

  lemma AfterKeeps(s: Section, e: Entry)
    ensures After(s, e).bigEndian == s.bigEndian && After(s, e).finished == s.finished
  {
  }

  /** The bytes of a section header after its block type; the reader passes over `filler`. */
  function SectionHeader(bigEndian: bool, filler: seq<byte>): seq<byte>
    requires 12 + |filler| <= BLOCK_LIMIT
  {
    Capture.Stored32(bigEndian, 12 + |filler|) + Capture.Stored32(bigEndian, SECTION_MAGIC) + filler
  }

  /** The byte-order mark, read as a little-endian word. */
  lemma OrderRead(bigEndian: bool, b: seq<byte>, at: nat)
    requires at + 4 <= |b| && b[at..at + 4] == Capture.Stored32(bigEndian, SECTION_MAGIC)
    ensures Capture.FromLe32(b, at) == if bigEndian then ORDER_BIG else ORDER_LITTLE
  {
    var four := b[at..at + 4];
    assert b[at] == four[0] && b[at + 1] == four[1] && b[at + 2] == four[2] && b[at + 3] == four[3];
  }

  lemma SectionOpens(bigEndian: bool, filler: seq<byte>, body: seq<byte>)
    requires 12 + |filler| <= BLOCK_LIMIT
    ensures OpenSection(SectionHeader(bigEndian, filler) + body) == Ok(Section(body, bigEndian, [], Capture.Ethernet, 0, false))
  {
    hide Capture.Stored32, Capture.FromLe32, Capture.Read32;
    var b := SectionHeader(bigEndian, filler) + body;
    assert b[0..4] == Capture.Stored32(bigEndian, 12 + |filler|) && b[4..8] == Capture.Stored32(bigEndian, SECTION_MAGIC);
    OrderRead(bigEndian, b, 4);
    Capture.StoredIsRead(bigEndian, 12 + |filler|, b, 0);
    assert b[8 + |filler|..] == body;
  }

  /** The two byte-order marks. */
  function Marks(): seq<seq<byte>> {
    [[0x4d, 0x3c, 0x2b, 0x1a], [0x1a, 0x2b, 0x3c, 0x4d]]
  }

  /** A section is refused for any other mark, and for a length under 12 or over 16 MiB. */
  lemma SectionRefused(bigEndian: bool, len: u32, mark: seq<byte>, behind: seq<byte>)
    requires |mark| == 4
    ensures var r := OpenSection(Capture.Stored32(bigEndian, len) + mark + behind);
            && (r.Err? && r.error.Malformed? && r.error.problem.BadByteOrder? <==> mark !in Marks())
            && (mark == Capture.Stored32(bigEndian, SECTION_MAGIC) ==>
                  (r == Err(Capture.Malformed(Capture.BadSectionLength(len))) <==> len < 12 || len > BLOCK_LIMIT))
  {
    hide Capture.Stored32, Capture.FromLe32, Capture.Read32;
    var b := Capture.Stored32(bigEndian, len) + mark + behind;
    assert b[0..4] == Capture.Stored32(bigEndian, len) && b[4..8] == mark;
    Capture.StoredIsRead(bigEndian, len, b, 0);
    MarkRead(b);
    if mark == Capture.Stored32(bigEndian, SECTION_MAGIC) {
      OrderRead(bigEndian, b, 4);
    }
  }

  lemma MarkRead(b: seq<byte>)
    requires |b| >= 8
    ensures Capture.FromLe32(b, 4) in {ORDER_LITTLE, ORDER_BIG} <==> b[4..8] in Marks()
  {
    var four := b[4..8];
    assert b[4] == four[0] && b[5] == four[1] && b[6] == four[2] && b[7] == four[3];
    CaptureRoundTrip.FourBytesOf(four, [0x4d, 0x3c, 0x2b, 0x1a]);
    CaptureRoundTrip.FourBytesOf(four, [0x1a, 0x2b, 0x3c, 0x4d]);
    assert four[..4] == four;
  }

  /** Cut inside its header a section does not open. */
  lemma SectionHeaderCut(bigEndian: bool, filler: seq<byte>, n: nat)
    requires 12 + |filler| <= BLOCK_LIMIT && n < 8 + |filler|
    ensures OpenSection(SectionHeader(bigEndian, filler)[..n]) == Err(Capture.UnexpectedEof)
  {
    hide Capture.Stored32, Capture.FromLe32, Capture.Read32;
    var b := SectionHeader(bigEndian, filler)[..n];
    if n >= 8 {
      assert b[0..4] == Capture.Stored32(bigEndian, 12 + |filler|) && b[4..8] == Capture.Stored32(bigEndian, SECTION_MAGIC);
      OrderRead(bigEndian, b, 4);
      Capture.StoredIsRead(bigEndian, 12 + |filler|, b, 0);
    }
  }

  // ---------------------------------------------------------------------------------------------------------------
  // What the entries in front of a packet say of it
  // ---------------------------------------------------------------------------------------------------------------

  /** The interfaces described since the last section header, in order. */
  ghost function DescribedIn(es: seq<Entry>): seq<Interface> {
    if es == [] then []
    else
      var before, last := DescribedIn(es[..|es| - 1]), es[|es| - 1];
      match last
      case Described(link, _, choices, _) => before + [Interface(Capture.LinkFromU32(link), Declared(choices, 1_000_000))]
      case Restarted(_) => []
      case _ => before
  }

  ghost function PacketsIn(es: seq<Entry>): nat {
    if es == [] then 0
    else PacketsIn(es[..|es| - 1]) + if es[|es| - 1].Captured? || es[|es| - 1].Simple? then 1 else 0
  }

  /** The link type of the file: that of the latest interface that was the first of its section. */
  ghost function LinkIn(es: seq<Entry>): Capture.LinkType {
    if es == [] then Capture.Ethernet
    else
      var before, last := es[..|es| - 1], es[|es| - 1];
      if last.Described? && DescribedIn(before) == [] then Capture.LinkFromU32(last.link) else LinkIn(before)
  }

  ghost function Standing(bigEndian: bool, es: seq<Entry>): Section {
    Section([], bigEndian, DescribedIn(es), LinkIn(es), PacketsIn(es), false)
  }

  lemma {:induction false} StandingUsable(bigEndian: bool, es: seq<Entry>)
    ensures Usable(Standing(bigEndian, es).interfaces)
    decreases |es|
  {
    if es != [] {
      StandingUsable(bigEndian, es[..|es| - 1]);
      if es[|es| - 1].Described? {
        DeclaredInRange(es[|es| - 1].choices, 1_000_000);
      }
    }
  }

  lemma StandingAfter(bigEndian: bool, es: seq<Entry>, e: Entry)
    ensures After(Standing(bigEndian, es), e) == Standing(bigEndian, es + [e])
  {
    assert (es + [e])[..|es|] == es;
  }

  /** The packets of some entries, each told by the entries in front of it. */
  ghost function Told(bigEndian: bool, es: seq<Entry>): seq<Answer> {
    if es == [] then []
    else
      var before := es[..|es| - 1];
      StandingUsable(bigEndian, before);
      var packet := Meant(Standing(bigEndian, before), es[|es| - 1]);
      Told(bigEndian, before) + if packet.Some? then [Some(Ok(packet.value))] else []
  }

  /** Going through the entries one by one gives what the entries in front of each tell. */
  lemma {:induction false} AnswersTold(bigEndian: bool, before: seq<Entry>, es: seq<Entry>)
    ensures Usable(Standing(bigEndian, before).interfaces)
    ensures Told(bigEndian, before + es) == Told(bigEndian, before) + Answers(Standing(bigEndian, before), es)
    decreases |es|
  {
    hide Meant, After, Standing, Usable;
    StandingUsable(bigEndian, before);
    if es == [] {
      assert before + es == before;
      NoAnswers(Standing(bigEndian, before));
    } else {
      var longer := before + [es[0]];
      assert longer[..|before|] == before && longer + es[1..] == before + es;
      StandingUsable(bigEndian, longer);
      StandingAfter(bigEndian, before, es[0]);
      AnswersTold(bigEndian, longer, es[1..]);
      AnswersFirst(Standing(bigEndian, before), es);
    }
  }

  lemma NothingTold(bigEndian: bool)
    ensures Standing(bigEndian, []) == Section([], bigEndian, [], Capture.Ethernet, 0, false)
    ensures Told(bigEndian, []) == []
  {
  }

  lemma NothingInFront(answers: seq<Answer>)
    ensures [] + answers == answers
  {
  }

  /**
   The section law. A section of either byte order, cut anywhere after its header, opens and reads as the packets of
   the blocks still whole, numbered from 1 and each dated by the interface it names among those described in front of
   it since the last section header.
   */
  lemma SectionLaw(bigEndian: bool, filler: seq<byte>, es: seq<Entry>, n: nat)
    requires 12 + |filler| <= BLOCK_LIMIT && AllFit(bigEndian, es) && n <= |EntriesBytes(bigEndian, es)|
    ensures var source := OpenSection(SectionHeader(bigEndian, filler) + EntriesBytes(bigEndian, es)[..n]);
            var (count, torn) := Whole(bigEndian, es, n);
            && source.Ok? && Usable(source.value.interfaces)
            && Drain(source.value) == Told(bigEndian, es[..count]) + Ending(torn)
  {
    hide OpenSection, SectionHeader, Drain, Whole, Standing, Told, Answers, Ending, EntriesBytes, Fits;
    SectionOpens(bigEndian, filler, EntriesBytes(bigEndian, es)[..n]);
    CutSection(Section([], bigEndian, [], Capture.Ethernet, 0, false), es, n);
    NothingTold(bigEndian);
    var kept := es[..Whole(bigEndian, es, n).0];
    AnswersTold(bigEndian, [], kept);
    assert [] + kept == kept;
    NothingInFront(Told(bigEndian, kept));
  }

  // ---------------------------------------------------------------------------------------------------------------
  // A second section of the other byte order
  // ---------------------------------------------------------------------------------------------------------------

  /** A length as it looks in the other byte order. */
  function Reversed(len: u32): u32 {
    Capture.SwapBytes(len)
  }

  lemma DigitsOf(a: byte, b: byte, c: byte, d: byte)
    ensures var v := a + 0x100 * b + 0x1_0000 * c + 0x100_0000 * d;
            v % 0x100 == a && v / 0x100 % 0x100 == b && v / 0x1_0000 % 0x100 == c && v / 0x100_0000 == d
  {
    var v := a + 0x100 * b + 0x1_0000 * c + 0x100_0000 * d;
    assert v / 0x100_0000 == d && v / 0x1_0000 == c + 0x100 * d && v / 0x100 == b + 0x100 * c + 0x1_0000 * d;
  }

  /** The other order's bytes are this order's bytes of the reversed number. */
  lemma OtherOrder(bigEndian: bool, v: u32)
    ensures Capture.Stored32(!bigEndian, v) == Capture.Stored32(bigEndian, Reversed(v))
  {
    var a, b, c, d := v % 0x100, v / 0x100 % 0x100, v / 0x1_0000 % 0x100, v / 0x100_0000;
    Capture.FourBytes(v);
    Capture.SwapOfBytes(a, b, c, d);
    DigitsOf(d, c, b, a);
    hide Capture.SwapBytes;
    assert Reversed(v) == d + 0x100 * c + 0x1_0000 * b + 0x100_0000 * a;
  }

  /**
   A section header in the middle of a file is sized in the byte order of the section before it. One of the other order
   is refused exactly when its length, reversed, is not one a block may have; so a plain header of 28 bytes always is.
   */
  lemma OtherOrderRefused(s: Section, filler: seq<byte>, tail: seq<byte>)
    requires 16 + |filler| <= BLOCK_LIMIT && !s.finished
    ensures var len := 16 + |filler|;
            var body := Capture.Stored32(!s.bigEndian, SECTION_MAGIC) + filler;
            var p := Pull(s.(rest := BlockBytes(!s.bigEndian, 0x0a0d_0d0a, body) + tail));
            p.Stopped? && p.item == Some(Err(Capture.Malformed(Capture.BadBlock(0x0a0d_0d0a, Reversed(len)))))
            <==> !(12 <= Reversed(len) <= BLOCK_LIMIT) || Reversed(len) % 4 != 0
    ensures !(12 <= Reversed(28) <= BLOCK_LIMIT)
  {
    hide Capture.Stored32, Capture.Read32, Capture.SwapBytes;
    var body := Capture.Stored32(!s.bigEndian, SECTION_MAGIC) + filler;
    var rest := BlockBytes(!s.bigEndian, 0x0a0d_0d0a, body) + tail;
    OtherOrder(s.bigEndian, 0x0a0d_0d0a);
    OtherOrder(s.bigEndian, |body| + 12);
    assert rest[0..4] == Capture.Stored32(!s.bigEndian, 0x0a0d_0d0a) && rest[4..8] == Capture.Stored32(!s.bigEndian, |body| + 12);
    Capture.StoredIsRead(s.bigEndian, Reversed(0x0a0d_0d0a), rest, 0);
    Capture.StoredIsRead(s.bigEndian, Reversed(|body| + 12), rest, 4);
    KnownReversals();
  }

  lemma KnownReversals()
    ensures Reversed(0x0a0d_0d0a) == 0x0a0d_0d0a && Reversed(28) == 0x1c00_0000
  {
    hide Capture.SwapBytes;
    Capture.SwapOfBytes(28, 0, 0, 0);
    Capture.SwapOfBytes(0x0a, 0x0d, 0x0d, 0x0a);
  }

  // ---------------------------------------------------------------------------------------------------------------
  // Simple packets and their padding
  // ---------------------------------------------------------------------------------------------------------------

  /** A simple packet as a writer lays it out: its bytes, and zeros up to whole words. */
  function WrittenSimple(wireLen: u32, data: seq<byte>): Entry {
    Simple(wireLen, data + seq(Padded(|data|) - |data|, _ => 0))
  }

  /** The packet a reader gives for a simple packet that was written. */
  ghost function ReadSimple(s: Section, wireLen: u32, data: seq<byte>): RawPacket
    requires Usable(s.interfaces)
  {
    Meant(s, WrittenSimple(wireLen, data)).value
  }

  /**
   The reader takes the padding of a simple packet for data: the packet comes back as it was exactly when it needed
   none.
   */
  lemma SimpleKeepsPadding(s: Section, wireLen: u32, data: seq<byte>)
    requires Usable(s.interfaces) && |data| + 20 <= BLOCK_LIMIT
    ensures var e := WrittenSimple(wireLen, data);
            && Fits(s.bigEndian, e)
            && Take(s, BLOCK_SPB, Body(s.bigEndian, e)).1 == Some(Ok(ReadSimple(s, wireLen, data)))
            && data <= ReadSimple(s, wireLen, data).data
            && (ReadSimple(s, wireLen, data).data == data <==> |data| % 4 == 0)
  {
    hide Capture.Stored32;
    var e := WrittenSimple(wireLen, data);
    assert Fits(s.bigEndian, e);
    hide Take, After, Body;
    EntryTaken(s, e);
  }

  /** A packet of one byte comes back as four. */
  lemma OneByteComesBackAsFour(s: Section)
    requires Usable(s.interfaces)
    ensures ReadSimple(s, 1, [7]).data == [7, 0, 0, 0]
    ensures ReadSimple(s, 1, [7]).capturedLen == 4 && ReadSimple(s, 1, [7]).wireLen == 4
  {
  }
}
