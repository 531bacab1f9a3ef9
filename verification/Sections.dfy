/** A pcapng file: the walk over its blocks (draft-ietf-opsawg-pcapng, section 3.1). */
module Sections {
  import opened Wrappers
  import opened Words
  import opened Clock
  import opened Capture
  import opened Pcapng

  const MAX_BLOCK_BYTES: u32 := 0x100_0000
  const BLOCK_IDB: u32 := 1
  const BLOCK_SPB: u32 := 3
  const BLOCK_EPB: u32 := 6
  const ORDER_LITTLE: u32 := 0x1a2b_3c4d
  const ORDER_BIG: u32 := 0x4d3c_2b1a

  /** An open section: the bytes not read yet, and what its blocks have said so far. */
  datatype Section = Section(rest: seq<byte>, bigEndian: bool, interfaces: seq<Interface>, link: LinkType, index: nat, finished: bool)

  /** `read_pcapng_section_header`, on the bytes after the block type. */
  function OpenSection(b: seq<byte>): Result<Section, CaptureError> {
    if |b| < 8 then Err(UnexpectedEof)
    else
      var order := FromLe32(b, 4);
      if order != ORDER_LITTLE && order != ORDER_BIG then Err(Malformed(BadByteOrder(order)))
      else
        var bigEndian := order == ORDER_BIG;
        var len := Read32(bigEndian, b, 0);
        if !(12 <= len <= MAX_BLOCK_BYTES) then Err(Malformed(BadSectionLength(len)))
        else if |b| < 8 + (len - 12) then Err(UnexpectedEof)
        else Ok(Section(b[8 + (len - 12)..], bigEndian, [], Ethernet, 0, false))
  }

  /** Either the walk stops with an answer, or a whole block was read. */
  datatype Pulled = Stopped(section: Section, item: Item) | Block(after: Section, blockType: u32, body: seq<byte>)

  /** Reading one block. */
  function Pull(s: Section): (p: Pulled)
    ensures p.Block? ==> |p.after.rest| < |s.rest| && p.after == s.(rest := p.after.rest)
    ensures p.Stopped? ==> p.section == s.(rest := p.section.rest, finished := true)
    ensures p.Stopped? && p.item.Some? ==> |p.section.rest| < |s.rest|
  {
    if |s.rest| < 8 then Stopped(s.(rest := [], finished := true), None)
    else
      var blockType, len := Read32(s.bigEndian, s.rest, 0), Read32(s.bigEndian, s.rest, 4);
      var held := s.rest[8..];
      if !(12 <= len <= MAX_BLOCK_BYTES) || len % 4 != 0 then
        Stopped(s.(rest := held, finished := true), Some(Err(Malformed(BadBlock(blockType, len)))))
      else if |held| < len - 12 then Stopped(s.(rest := [], finished := true), None)
      else if |held| < len - 8 then Stopped(s.(rest := [], finished := true), Some(Err(UnexpectedEof)))
      else Block(s.(rest := held[len - 8..]), blockType, held[..len - 12])
  }

  /** Acting on one block; no item means that the walk goes on. */
  function Take(s: Section, blockType: u32, body: seq<byte>): (r: (Section, Item))
    requires Usable(s.interfaces)
    ensures Usable(r.0.interfaces) && r.0.rest == s.rest
    ensures r.1.None? ==> r.0.finished == s.finished
  {
    if blockType == SECTION_HEADER then
      (s.(interfaces := [], bigEndian := if |body| >= 4 then FromLe32(body, 0) == ORDER_BIG else s.bigEndian), None)
    else if blockType == BLOCK_IDB then
      var described := ParseIdb(s.bigEndian, body);
      ResolutionInRange(s.bigEndian, body);
      if described.Err? then (s, Some(Err(described.error)))
      else
        (s.(link := if s.interfaces == [] then described.value.link else s.link, interfaces := s.interfaces + [described.value]), None)
    else if blockType == BLOCK_EPB then
      var (index, packet) := ParseEpb(s.bigEndian, s.interfaces, s.index, body);
      (s.(index := index, finished := s.finished || packet.Err?), Some(packet))
    else if blockType == BLOCK_SPB && |body| >= 4 then
      var wireLen := Max(Read32(s.bigEndian, body, 0), Wrap32(|body| - 4));
      (s.(index := s.index + 1), Some(Ok(NewPacket(s.index + 1, Timestamp(0, 0), wireLen, body[4..]))))
    else (s, None)
  }

  /** `next_packet` on a section. */
  function Advance(s: Section): (r: (Section, Item))
    requires Usable(s.interfaces)
    ensures Usable(r.0.interfaces) && (r.1.Some? ==> |r.0.rest| < |s.rest|)
    decreases |s.rest|
  {
    if s.finished then (s, None)
    else
      match Pull(s)
      case Stopped(last, item) => (last, item)
      case Block(after, blockType, body) =>
        var (taken, item) := Take(after, blockType, body);
        if item.Some? then (taken, item) else Advance(taken)
  }

  // ---------------------------------------------------------------------------------------------------------------
  // The reader
  // ---------------------------------------------------------------------------------------------------------------

  class SectionSource {
    var rest: seq<byte>
    var bigEndian: bool
    var interfaces: seq<Interface>
    var linkType: LinkType
    var index: nat
    var finished: bool

    ghost function View(): Section
      reads this
    {
      Section(rest, bigEndian, interfaces, linkType, index, finished)
    }

    ghost predicate Valid()
      reads this
    {
      Usable(interfaces)
    }

    constructor (section: Section)
      requires Usable(section.interfaces)
      ensures Valid() && View() == section
    {
      rest, bigEndian, interfaces, linkType := section.rest, section.bigEndian, section.interfaces, section.link;
      index, finished := section.index, section.finished;
    }

    /** `parse_idb`: the walk over the options of an interface. */
    method DescribeInterface(body: seq<byte>) returns (r: Result<Interface, CaptureError>)
      ensures r == ParseIdb(bigEndian, body)
    {
      hide ResolutionOf, Padded, Read16;
      if |body| < 8 {
        return Err(Malformed(ShortInterface));
      }
      var link := LinkFromU32(Read16(bigEndian, body, 0));
      var resolution := DEFAULT_RESOLUTION;
      var off := 8;
      while off + 4 <= |body|
        invariant WalkOptions(bigEndian, body, off, resolution) == WalkOptions(bigEndian, body, 8, DEFAULT_RESOLUTION)
        decreases |body| - off
      {
        var code, len := Read16(bigEndian, body, off), Read16(bigEndian, body, off + 2);
        var start := off + 4;
        if start + len > |body| {
          break;
        }
        if code == IF_TSRESOL && len == 1 {
          resolution := ResolutionOf(body[start]);
        }
        if code == END_OF_OPTIONS {
          break;
        }
        off := start + Padded(len);
      }
      assert resolution == WalkOptions(bigEndian, body, 8, DEFAULT_RESOLUTION);
      if resolution == 0 {
        resolution := DEFAULT_RESOLUTION;
      }
      return Ok(Interface(link, resolution));
    }

    /** `parse_epb`. */
    method DecodePacket(body: seq<byte>) returns (r: Result<RawPacket, CaptureError>)
      requires Valid()
      modifies `index
      ensures (index, r) == ParseEpb(bigEndian, interfaces, old(index), body)
    {
      if |body| < 20 {
        return Err(Malformed(ShortPacket));
      }
      var id := Read32(bigEndian, body, 0);
      var high, low := Read32(bigEndian, body, 4), Read32(bigEndian, body, 8);
      var capLen, wireLen := Read32(bigEndian, body, 12), Read32(bigEndian, body, 16);
      index := index + 1;
      if capLen > MAX_PACKET_BYTES {
        return Err(ImplausibleLength(index, capLen));
      }
      var end := 20 + capLen;
      if end > |body| {
        return Err(Malformed(Overlong(index, capLen, |body| - 20)));
      }
      var resolution := ResolutionFor(interfaces, id);
      var at := TimeOfTicks(high * TWO32 + low, resolution);
      return Ok(NewPacket(index, at, Max(wireLen, capLen), body[20..end]));
    }

    /** The part of `next_pcapng` that reads a block; `block` is absent when the walk ends with `item`. */
    method PullBlock() returns (block: Option<(u32, seq<byte>)>, item: Item)
      modifies `rest, `finished
      ensures var p := Pull(old(View()));
              match p
              case Stopped(last, answer) => block.None? && View() == last && item == answer
              case Block(after, blockType, body) => View() == after && block == Some((blockType, body)) && item.None?
    {
      hide Read32;
      block, item := None, None;
      if |rest| < 8 {
        rest, finished := [], true;
        return;
      }
      var blockType, len := Read32(bigEndian, rest, 0), Read32(bigEndian, rest, 4);
      rest := rest[8..];
      if !(12 <= len <= MAX_BLOCK_BYTES) || len % 4 != 0 {
        finished := true;
        return None, Some(Err(Malformed(BadBlock(blockType, len))));
      }
      if |rest| < len - 12 {
        rest, finished := [], true;
        return;
      }
      var body := rest[..len - 12];
      if |rest| < len - 8 {
        rest, finished := [], true;
        return None, Some(Err(UnexpectedEof));
      }
      rest := rest[len - 8..];
      return Some((blockType, body)), None;
    }

    /** The part of `next_pcapng` that acts on a block. */
    method TakeBlock(blockType: u32, body: seq<byte>) returns (item: Item)
      requires Valid()
      modifies this
      ensures Valid() && (View(), item) == Take(old(View()), blockType, body)
    {
      hide ParseIdb, ParseEpb, Read32, FromLe32;
      item := None;
      if blockType == SECTION_HEADER {
        if |body| >= 4 {
          bigEndian := FromLe32(body, 0) == ORDER_BIG;
        }
        interfaces := [];
      } else if blockType == BLOCK_IDB {
        var described := DescribeInterface(body);
        ResolutionInRange(bigEndian, body);
        if described.Err? {
          return Some(Err(described.error));
        }
        if interfaces == [] {
          linkType := described.value.link;
        }
        interfaces := interfaces + [described.value];
      } else if blockType == BLOCK_EPB {
        var packet := DecodePacket(body);
        if packet.Err? {
          finished := true;
        }
        return Some(packet);
      } else if blockType == BLOCK_SPB {
        if |body| < 4 {
          return None;
        }
        var wireLen := Read32(bigEndian, body, 0);
        index := index + 1;
        return Some(Ok(NewPacket(index, Timestamp(0, 0), Max(wireLen, Wrap32(|body| - 4)), body[4..])));
      }
    }

    /** `next_packet`. */
    method NextPacket() returns (item: Item)
      requires Valid()
      modifies this
      ensures Valid() && (View(), item) == Advance(old(View()))
    {
      hide Pull, Take;
      if finished {
        return None;
      }
      while true
        invariant Valid() && !finished && Advance(View()) == Advance(old(View()))
        decreases |rest|
      {
        var block, answer := PullBlock();
        if block.None? {
          return answer;
        }
        var taken := TakeBlock(block.value.0, block.value.1);
        if taken.Some? {
          return taken;
        }
      }
    }
  }
}
