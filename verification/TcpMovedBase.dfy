/**
 What a SYN that names another start does to a stream that holds data: the bytes stay where they are in the buffer, and
 what follows is read next to them.
 */
module TcpMovedBase {
  import opened Wrappers
  import opened Words
  import opened Ranges
  import opened HeadBuffer
  import opened Net
  import opened FlowKeys
  import opened Apps
  import opened TcpReassembly
  import opened TcpRuns

  // ---------------------------------------------------------------------------------------------------------------
  // Buffers without a gap
  // ---------------------------------------------------------------------------------------------------------------

  /** A head that holds exactly these bytes from its start. */
  ghost function Solid(text: seq<byte>): Head {
    Head(|text|, map at | 0 <= at < |text| :: text[at])
  }

  lemma SolidFacts(text: seq<byte>)
    ensures WellFormed(Solid(text)) && RunLength(Solid(text)) == |text| && Bytes(Solid(text), |text|) == text
    ensures RangeTotal(Solid(text)) <= 1
  {
    var keys := Solid(text).held.Keys;
    PrefixUnique(keys, RunLength(Solid(text)), |text|);
    forall x ensures x in RunStarts(keys) <==> x == 0 && text != [] {
      assert HasPredecessor(keys, x) <==> x - 1 in keys;
    }
    assert RunStarts(keys) == if text == [] then {} else {0};
  }

  /** Bytes written where a solid head ends make it longer, and cannot conflict. */
  lemma SolidWrite(text: seq<byte>, more: seq<byte>)
    requires more != [] && |text + more| <= MAX_STREAM_BYTES
    ensures WriteTo(Solid(text), |text|, more, MAX_STREAM_BYTES) == Solid(text + more)
    ensures !Conflicts(Solid(text), |text|, more, MAX_STREAM_BYTES)
  {
    var got, want := WriteTo(Solid(text), |text|, more, MAX_STREAM_BYTES).held, Solid(text + more).held;
    forall at ensures (at in got <==> at in want) && (at in got && at in want ==> got[at] == want[at]) {
      WriteToAt(Solid(text), |text|, more, MAX_STREAM_BYTES, at);
    }
    hide WriteTo;
    MapsEqual(got, want);
  }

  // ---------------------------------------------------------------------------------------------------------------
  // Data, a SYN that names another start, and more data
  // ---------------------------------------------------------------------------------------------------------------

  function Data(ports: Ports, seqNo: u32, payload: seq<byte>, wellFormed: seq<byte> -> bool): Segment {
    Segment(Endpoint(V4(1), ports.src), Endpoint(V4(2), ports.dst), seqNo, false, false, false, payload,
            AppFromPayload(ports, payload, true, wellFormed))
  }

  function Syn(ports: Ports, seqNo: u32): Segment {
    Segment(Endpoint(V4(1), ports.src), Endpoint(V4(2), ports.dst), seqNo, false, false, true, [], NoApp)
  }

  /** The first segment starts the stream at itself. */
  lemma FirstData(start: u32, a: seq<byte>, ports: Ports, wellFormed: seq<byte> -> bool)
    requires 0 < |a| <= MAX_STREAM_BYTES
    ensures Feed(Fresh(start), start, a, ports, wellFormed) == Outcome(State(start, Solid(a), 1, false, false), None, false)
  {
    hide WriteTo, Conflicts, RangeTotal, RunLength, Decoded;
    assert EMPTY == Solid([]) && [] + a == a;
    SolidWrite([], a);
    SolidFacts(a);
    assert Offset(Fresh(start), start) == 0;
  }

  /** The stream after the first segment and the SYN. */
  ghost function Reseated(moved: u32, a: seq<byte>): State {
    State(moved, Solid(a), 1, true, false)
  }

  lemma OffsetFromBase(moved: u32, a: seq<byte>, off: nat)
    requires off < TWO32
    ensures Seated(Reseated(moved, a), WrapAdd(moved, off)) == Reseated(moved, a) && Offset(Reseated(moved, a), WrapAdd(moved, off)) == off
  {
  }

  /** Data right behind the moved bytes completes what they began. */
  lemma NextData(moved: u32, a: seq<byte>, b: seq<byte>, ports: Ports, wellFormed: seq<byte> -> bool)
    requires a != [] && b != [] && |a + b| <= MAX_STREAM_BYTES && IsComplete(AppFromPayload(ports, a + b, true, wellFormed))
    ensures WellFormed(Reseated(moved, a).head)
    ensures Feed(Reseated(moved, a), WrapAdd(moved, |a|), b, ports, wellFormed).emitted == Some(AppFromPayload(ports, a + b, true, wellFormed))
  {
    hide WriteTo, Conflicts, RangeTotal, RunLength, AppFromPayload, Seated, Offset, WrapAdd;
    SolidFacts(a);
    SolidFacts(a + b);
    SolidWrite(a, b);
    OffsetFromBase(moved, a, |a|);
  }

  lemma ThreeSteps(p: Segment, q: Segment, r: Segment, wellFormed: seq<byte> -> bool)
    ensures var x := LifeStep(None, p, wellFormed);
            var y := LifeStep(x.stream, q, wellFormed);
            var z := LifeStep(y.stream, r, wellFormed);
            && RunOf([p, q, r], wellFormed).outs == [x.emitted, y.emitted, z.emitted]
            && RunOf([p, q, r], wellFormed).conflicts == [x.conflict, y.conflict, z.conflict]
  {
    hide LifeStep;
    var ps := [p, q, r];
    assert ps[..2] == [p, q] && [p, q][..1] == [p] && [p][..0] == [];
    assert RunOf([], wellFormed) == Run(None, [], []);
    var x := LifeStep(None, p, wellFormed);
    assert RunOf([p], wellFormed) == Run(x.stream, [x.emitted], [x.conflict]);
    var y := LifeStep(x.stream, q, wellFormed);
    assert RunOf([p, q], wellFormed) == Run(y.stream, [x.emitted] + [y.emitted], [x.conflict] + [y.conflict]);
  }

  /** The state before the last of the three. */
  lemma TwoSteps(ports: Ports, start: u32, moved: u32, a: seq<byte>, wellFormed: seq<byte> -> bool)
    requires 0 < |a| <= MAX_STREAM_BYTES && !IsComplete(AppFromPayload(ports, a, true, wellFormed))
    ensures LifeStep(None, Data(ports, start, a, wellFormed), wellFormed) == Life(Some(State(start, Solid(a), 1, false, false)), None, false)
    ensures WellFormed(Solid(a))
    ensures LifeStep(Some(State(start, Solid(a), 1, false, false)), Syn(ports, WrapSub(moved, 1)), wellFormed)
            == Life(Some(Reseated(moved, a)), None, false)
  {
    hide Feed, AppFromPayload;
    FirstData(start, a, ports, wellFormed);
    SolidFacts(a);
    assert WrapAdd(WrapSub(moved, 1), 1) == moved;
  }

  /**
   A message put together from two places. Whatever the two starts, data at the first, a SYN naming the second, and data
   behind it bring out the decode of both pieces together, however far apart the pieces lie.
   */
  lemma MovedBaseMixes(ports: Ports, start: u32, moved: u32, a: seq<byte>, b: seq<byte>, wellFormed: seq<byte> -> bool)
    requires a != [] && b != [] && |a + b| <= MAX_STREAM_BYTES
    requires !IsComplete(AppFromPayload(ports, a, true, wellFormed)) && !IsComplete(AppFromPayload(ports, b, true, wellFormed))
    requires IsComplete(AppFromPayload(ports, a + b, true, wellFormed))
    ensures RunOf([Data(ports, start, a, wellFormed), Syn(ports, WrapSub(moved, 1)), Data(ports, WrapAdd(moved, |a|), b, wellFormed)],
                  wellFormed).outs == [None, None, Some(AppFromPayload(ports, a + b, true, wellFormed))]
  {
    hide RunOf, Feed, AppFromPayload, Solid, WrapAdd, WrapSub;
    TwoSteps(ports, start, moved, a, wellFormed);
    NextData(moved, a, b, ports, wellFormed);
    ThreeSteps(Data(ports, start, a, wellFormed), Syn(ports, WrapSub(moved, 1)), Data(ports, WrapAdd(moved, |a|), b, wellFormed), wellFormed);
  }

  // ---------------------------------------------------------------------------------------------------------------
  // Two received runs
  // ---------------------------------------------------------------------------------------------------------------

  lemma OneByteIsNothing(ports: Ports, x: byte, wellFormed: seq<byte> -> bool)
    ensures AppFromPayload(ports, [x], true, wellFormed) == NoApp
  {
    hide FirstBlankLine;
    assert |HeaderBlock([x]).head| <= 1;
    assert SkipEmptyLines(HeaderBlock([x]).head) == HeaderBlock([x]).head;
  }

  /** A conflict is counted although no two segments share a sequence position: one is at 100, the other at 200. */
  lemma MovedBaseConflicts(ports: Ports, wellFormed: seq<byte> -> bool)
    ensures RunOf([Data(ports, 100, [7], wellFormed), Syn(ports, 199), Data(ports, 200, [8], wellFormed)], wellFormed).conflicts
            == [false, false, true]
  {
    hide RunOf, Judged, AppFromPayload, Seated, Offset;
    OneByteIsNothing(ports, 7, wellFormed);
    OneByteIsNothing(ports, 8, wellFormed);
    TwoSteps(ports, 100, 200, [7], wellFormed);
    OffsetFromBase(200, [7], 0);
    assert 0 in Solid([7]).held && Solid([7]).held[0] == 7 != [8][0];
    assert Conflicts(Solid([7]), 0, [8], MAX_STREAM_BYTES);
    ThreeSteps(Data(ports, 100, [7], wellFormed), Syn(ports, 199), Data(ports, 200, [8], wellFormed), wellFormed);
  }

  /** A server hello of 42 bytes in a record that says so. */
  function Hello(): (text: seq<byte>)
    ensures |text| == 47 && text[..6] == [22, 0, 0, 0, 42, 2] && forall i :: 6 <= i < 47 ==> text[i] == 0
  {
    [22, 0, 0, 0, 42, 2] + seq(41, _ => 0)
  }

  lemma HelloIsWhole(ports: Ports, wellFormed: seq<byte> -> bool)
    requires !DnsPorts(ports)
    ensures IsComplete(AppFromPayload(ports, Hello(), true, wellFormed))
  {
    hide Hello;
    var text := Hello();
    assert text[0] == text[..6][0] && text[3] == text[..6][3] && text[4] == text[..6][4] && text[5] == text[..6][5];
    assert text[5..5 + 42][38] == text[43];
  }

  lemma HelloHalves(ports: Ports, wellFormed: seq<byte> -> bool)
    requires !DnsPorts(ports)
    ensures AppFromPayload(ports, Hello()[..20], true, wellFormed) == NoApp
    ensures AppFromPayload(ports, Hello()[20..], true, wellFormed) == NoApp
  {
    hide Hello, HttpParse;
    var text := Hello();
    assert text[..20][0] == text[..6][0] == 22 && text[20..][0] == text[20] == 0;
    HandshakeIsNotHttp(text[..20], wellFormed);
    NoStartIsNotHttp(text[20..], wellFormed);
  }

  /** Off the DNS ports, a hello is brought out whose halves lie a hundred positions apart in the stream. */
  lemma MixedHello(ports: Ports, wellFormed: seq<byte> -> bool)
    requires !DnsPorts(ports)
    ensures var a, b := Hello()[..20], Hello()[20..];
            var out := RunOf([Data(ports, 100, a, wellFormed), Syn(ports, 199), Data(ports, 220, b, wellFormed)], wellFormed).outs[2];
            && out == Some(AppFromPayload(ports, Hello(), true, wellFormed)) && out.value.Tls?
            && forall x :: 120 <= x < 220 ==> !Reached([Chunk(100, a), Chunk(220, b)], x)
  {
    hide RunOf, Hello;
    var a, b := Hello()[..20], Hello()[20..];
    HelloIsWhole(ports, wellFormed);
    HelloHalves(ports, wellFormed);
    assert a + b == Hello();
    MovedBaseMixes(ports, 100, 200, a, b, wellFormed);
    assert WrapSub(200, 1) == 199 && WrapAdd(200, |a|) == 220;
    assert TlsParse(Hello()).Some? by {
      HelloParses();
    }
  }

  lemma HelloParses()
    ensures TlsParse(Hello()).Some?
  {
    hide Hello;
    var text := Hello();
    assert text[0] == text[..6][0] && text[3] == text[..6][3] && text[4] == text[..6][4] && text[5] == text[..6][5];
    assert text[5..5 + 42][38] == text[43];
  }
}
