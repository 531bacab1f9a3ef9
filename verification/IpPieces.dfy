/** How many fragments a rebuilt datagram drew on. */
module IpPieces {
  import opened Wrappers
  import opened Words
  import opened Ranges
  import opened HeadBuffer
  import opened Net
  import opened IpReassembly
  import opened IpRuns

  // ---------------------------------------------------------------------------------------------------------------
  // Fragments that parsed headers make
  // ---------------------------------------------------------------------------------------------------------------

  /** A piece: something comes before it or after it. */
  ghost predicate Piece(f: Fragment) {
    f.more || f.offset > 0
  }

  /** A fragment that is a whole datagram. */
  ghost predicate Lone(f: Fragment) {
    f.offset == 0 && !f.more && 0 < |f.bytes| <= MAX_DATAGRAM_BYTES
  }

  /** A parsed IPv4 packet is a fragment exactly when its flags word says so, and then it is a piece. */
  lemma Ipv4FragmentsArePieces(src: IpAddr, dst: IpAddr, protocol: byte, id: u16, flagsFrag: u16, bytes: seq<byte>)
    ensures var f := FragInfo(ParsedIpv4(src, dst, protocol, id, flagsFrag), bytes);
            && (f.None? <==> flagsFrag % 0x4000 == 0)
            && (f.Some? ==> Piece(f.value) && f.value.key == FragKey(src, dst, protocol, id))
  {
  }

  function Bit(b: bool): nat {
    if b then 1 else 0
  }

  /**
   An IPv4 flags word holds a reserved bit, a bit against fragmenting, a bit for more to come and thirteen bits of offset
   in eights of a byte. The packet is a fragment when more is to come or the offset is not zero, and then it is the
   fragment those fields tell; the first two bits tell nothing.
   */
  lemma Ipv4FragmentFields(src: IpAddr, dst: IpAddr, protocol: byte, id: u16, reserved: bool, whole: bool, more: bool, eights: nat, bytes: seq<byte>)
    requires eights < 8192
    ensures var word := 32768 * Bit(reserved) + 16384 * Bit(whole) + 8192 * Bit(more) + eights;
            FragInfo(ParsedIpv4(src, dst, protocol, id, word), bytes)
            == if more || eights > 0 then Some(Fragment(FragKey(src, dst, protocol, id), 8 * eights, more, bytes)) else None
  {
  }

  /** An IPv6 fragment header holds thirteen bits of offset, two reserved bits and a bit for more to come: always a fragment. */
  lemma Ipv6FragmentFields(src: IpAddr, dst: IpAddr, protocol: byte, id: u32, eights: nat, reserved: nat, more: bool, bytes: seq<byte>)
    requires eights < 8192 && reserved < 4
    ensures FragInfo(ParsedIpv6(src, dst, protocol, Some(FragmentHeader(8 * eights + 2 * reserved + Bit(more), id))), bytes)
            == Some(Fragment(FragKey(src, dst, protocol, id), 8 * eights, more, bytes))
    ensures FragInfo(ParsedIpv6(src, dst, protocol, None), bytes) == None
  {
    var word := 8 * eights + 2 * reserved + Bit(more);
    assert word == 8 * eights + (2 * reserved + Bit(more)) && word / 8 == eights;
    assert word == 2 * (4 * eights + reserved) + Bit(more) && word % 2 == Bit(more);
    assert word / 8 * 8 == 8 * eights;
  }

  /** No parsed packet starts beyond the largest datagram, so the check for that never turns one away. */
  lemma ParsedStartsInside(h: IpHeader, bytes: seq<byte>)
    requires FromParser(h)
    ensures FragInfo(h, bytes).Some? ==> FragInfo(h, bytes).value.offset < 65_535
  {
  }

  // ---------------------------------------------------------------------------------------------------------------
  // Counting
  // ---------------------------------------------------------------------------------------------------------------

  lemma {:induction false} FirstEndWitness(fs: seq<Fragment>) returns (i: nat)
    requires FirstEnd(fs).Some?
    ensures i < |fs| && fs[i].offset < MAX_DATAGRAM_BYTES && !fs[i].more && FirstEnd(fs).value == fs[i].offset + |fs[i].bytes|
    decreases |fs|
  {
    var before := fs[..|fs| - 1];
    if FirstEnd(before).Some? {
      i := FirstEndWitness(before);
    } else {
      i := |fs| - 1;
    }
  }

  lemma {:induction false} ChunkWitness(fs: seq<Fragment>, c: nat) returns (i: nat)
    requires c < |Chunks(fs)|
    ensures i < |fs| && fs[i].offset < MAX_DATAGRAM_BYTES && Chunks(fs)[c] == Chunk(fs[i].offset, fs[i].bytes)
    decreases |fs|
  {
    var before := fs[..|fs| - 1];
    if c < |Chunks(before)| {
      i := ChunkWitness(before, c);
    } else {
      i := |fs| - 1;
    }
  }

  lemma {:induction false} ChunksCountAtLeast(fs: seq<Fragment>, i: nat, j: nat)
    requires i < j < |fs| && fs[i].offset < MAX_DATAGRAM_BYTES && fs[j].offset < MAX_DATAGRAM_BYTES
    ensures |Chunks(fs)| >= 2
    decreases |fs|
  {
    var before := fs[..|fs| - 1];
    if j < |before| {
      ChunksCountAtLeast(before, i, j);
    } else {
      ChunksCountPositive(before, i);
    }
  }

  lemma {:induction false} ChunksCountPositive(fs: seq<Fragment>, i: nat)
    requires i < |fs| && fs[i].offset < MAX_DATAGRAM_BYTES
    ensures |Chunks(fs)| >= 1
    decreases |fs|
  {
    if i < |fs| - 1 {
      ChunksCountPositive(fs[..|fs| - 1], i);
    }
  }

  /** An emission counts its fragments, and one of them wrote position 0. */
  lemma {:induction false} ZeroWritten(fs: seq<Fragment>) returns (c: nat)
    requires fs != [] && FeedAll(fs).outs[|fs| - 1].Some?
    ensures FeedAll(fs).state.fragments == |Chunks(fs)| && FirstEnd(fs).Some?
    ensures c < |Chunks(fs)| && Has(Chunks(fs)[c], 0)
  {
    hide Chunks, FirstWriter, FirstEnd;
    CountAtEmission(fs);
    Lifecycle(fs);
    FirstWriterMeaning(Chunks(fs));
    assert 0 in Content(fs);
    c :| 0 <= c < |Chunks(fs)| && Has(Chunks(fs)[c], 0);
  }

  lemma {:induction false} CountAtEmission(fs: seq<Fragment>)
    requires fs != [] && FeedAll(fs).outs[|fs| - 1].Some?
    ensures FeedAll(fs).state.fragments == |Chunks(fs)|
  {
    hide Crowded, Whole, Received, Content, FirstEnd, Disagrees, WriteTo, RunLength;
    Lifecycle(fs[..|fs| - 1]);
  }

  // ---------------------------------------------------------------------------------------------------------------
  // One fragment
  // ---------------------------------------------------------------------------------------------------------------

  /** A chunk that starts at 0 makes one run. */
  lemma OneRun(c: Chunk)
    requires c.at == 0 && 0 < |c.bytes| <= MAX_DATAGRAM_BYTES
    ensures var m := Window(Merge(map[], c), 0, MAX_DATAGRAM_BYTES);
            RunStarts(m.Keys) == {0}
  {
    var m := Window(Merge(map[], c), 0, MAX_DATAGRAM_BYTES);
    assert forall x :: Within(Merge(map[], c), 0, x) <==> x in Merge(map[], c);
    assert forall x :: x in m.Keys <==> 0 <= x < |c.bytes|;
    forall x ensures x in RunStarts(m.Keys) <==> x == 0 {
      assert HasPredecessor(m.Keys, x) <==> x - 1 in m.Keys;
    }
  }

  lemma {:induction false} LoneContent(f: Fragment)
    requires f.offset < MAX_DATAGRAM_BYTES
    ensures [f][..0] == [] && Chunks([f]) == [Chunk(f.offset, f.bytes)]
    ensures Content([f]) == Merge(map[], Chunk(f.offset, f.bytes))
    ensures FirstEnd([f]) == if f.more then None else Some(f.offset + |f.bytes|)
  {
    hide Merge;
    var c := Chunk(f.offset, f.bytes);
    assert [f][..0] == [];
    assert Chunks([]) == [] && [] + [c] == [c];
    FirstWriterSnoc([], c);
  }

  /** A lone fragment completes a fresh datagram by itself. */
  lemma {:induction false} LoneCompletes(f: Fragment)
    requires Lone(f)
    ensures Feed(FRESH, f).emitted == Some(f.bytes) && Feed(FRESH, f).view.fragments == 1
  {
    LoneContent(f);
    OneRun(Chunk(0, f.bytes));
    hide Content, Chunks, FirstEnd, RunStarts, Window;
    assert Whole([f]) && Assembled([f]) == f.bytes;
    assert !Crowded([f]);
    NothingReceived();
    OpenStep([], f, FRESH);
    assert [] + [f] == [f];
    LoneCount(f);
  }

  lemma LoneCount(f: Fragment)
    requires f.offset == 0
    ensures Feed(FRESH, f).view.fragments == 1
  {
  }

  lemma {:induction false} OutsideIsNoise(fs: seq<Fragment>)
    requires forall i :: 0 <= i < |fs| ==> fs[i].offset >= MAX_DATAGRAM_BYTES
    ensures FeedAll(fs).state == FRESH
    decreases |fs|
  {
    if fs != [] {
      OutsideIsNoise(fs[..|fs| - 1]);
    }
  }

  // ---------------------------------------------------------------------------------------------------------------
  // Two or more
  // ---------------------------------------------------------------------------------------------------------------

  /** The first fragment that is not turned away for its offset. */
  ghost predicate FirstInside(fs: seq<Fragment>, i: nat) {
    i < |fs| && fs[i].offset < MAX_DATAGRAM_BYTES && forall j :: 0 <= j < i ==> fs[j].offset >= MAX_DATAGRAM_BYTES
  }

  /** Once a lone fragment comes first, it is emitted, and nothing is emitted after it. */
  lemma {:induction false} LoneEmission(fs: seq<Fragment>, i: nat)
    requires fs != [] && FeedAll(fs).outs[|fs| - 1].Some? && FirstInside(fs, i) && Lone(fs[i])
    ensures FeedAll(fs).state.fragments == 1
  {
    hide Feed;
    var upTo := fs[..i + 1];
    assert upTo[..i] == fs[..i];
    OutsideIsNoise(fs[..i]);
    LoneCompletes(fs[i]);
    FeedAllPrefix(fs, i + 1);
    assert FeedAll(upTo).outs[i].Some?;
    if i < |fs| - 1 {
      EmittedAtMostOnce(fs, i, |fs| - 1);
    } else {
      assert upTo == fs;
    }
  }

  /** Two different fragments inside the limit are counted. */
  lemma {:induction false} BothCount(fs: seq<Fragment>, i: nat, j: nat)
    requires i < |fs| && j < |fs| && i != j && fs[i].offset < MAX_DATAGRAM_BYTES && fs[j].offset < MAX_DATAGRAM_BYTES
    ensures |Chunks(fs)| >= 2
  {
    if i < j {
      ChunksCountAtLeast(fs, i, j);
    } else {
      ChunksCountAtLeast(fs, j, i);
    }
  }

  /**
   A completed datagram drew on more than one fragment exactly when the first fragment taken was not a whole datagram
   by itself.
   */
  lemma {:induction false} TwoOrMore(fs: seq<Fragment>, i: nat)
    requires fs != [] && FeedAll(fs).outs[|fs| - 1].Some? && FirstInside(fs, i)
    ensures FeedAll(fs).state.fragments >= 2 <==> !Lone(fs[i])
  {
    hide FeedAll, Chunks, FirstEnd;
    if Lone(fs[i]) {
      LoneEmission(fs, i);
    } else {
      EmissionMeaning(fs);
      var c := ZeroWritten(fs);
      var start := ChunkWitness(fs, c);
      var end := FirstEndWitness(fs);
      if start != end {
        BothCount(fs, start, end);
      } else {
        assert Lone(fs[start]);
        BothCount(fs, i, start);
      }
    }
  }

  /** A datagram emitted from IPv4 fragments drew on at least two of them. */
  lemma {:induction false} Ipv4NeedsTwo(fs: seq<Fragment>)
    requires fs != [] && FeedAll(fs).outs[|fs| - 1].Some?
    requires forall i :: 0 <= i < |fs| ==> Piece(fs[i])
    ensures FeedAll(fs).state.fragments >= 2
  {
    hide FeedAll, Chunks, FirstEnd;
    var c := ZeroWritten(fs);
    var start := ChunkWitness(fs, c);
    var end := FirstEndWitness(fs);
    BothCount(fs, start, end);
  }

  /** A received IPv6 packet whose fragment header says offset 0 and nothing more to come completes by itself. */
  lemma LoneIpv6FragmentCompletes(src: IpAddr, dst: IpAddr, protocol: byte, frag: FragmentHeader, bytes: seq<byte>)
    requires frag.offFlags < 8 && frag.offFlags % 2 == 0 && 0 < |bytes| <= MAX_DATAGRAM_BYTES
    ensures var f := FragInfo(ParsedIpv6(src, dst, protocol, Some(frag)), bytes);
            && f.Some?
            && Step(NO_DATAGRAMS, f.value).1 == Some(bytes)
            && FeedAll([f.value]).outs == [Some(bytes)] && FeedAll([f.value]).state.fragments == 1
  {
    hide Feed;
    var f := FragInfo(ParsedIpv6(src, dst, protocol, Some(frag)), bytes).value;
    LoneCompletes(f);
    assert [f][..0] == [] && FeedAll([]) == History(FRESH, [], []);
  }
}
