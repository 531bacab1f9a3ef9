/** What the flow table says after a whole trace. */
module FlowRuns {
  import opened Wrappers
  import opened Words
  import opened Clock
  import opened FlowKeys
  import opened Flows
  import opened Sums

  /** The table after a trace. */
  function Fold(trace: seq<Packet>): Table {
    if trace == [] then map[] else Step(Fold(trace[..|trace| - 1]), trace[|trace| - 1])
  }

  predicate OnKey(p: Packet, key: FlowKey) {
    FromPacket(p).Some? && FromPacket(p).value.key == key
  }

  predicate Travels(p: Packet, key: FlowKey, dir: Direction) {
    FromPacket(p) == Some(Routed(key, dir))
  }

  /** The packets of a trace that travel one way along a key, in order. */
  function Along(trace: seq<Packet>, key: FlowKey, dir: Direction): seq<Packet> {
    if trace == [] then []
    else
      var earlier, last := Along(trace[..|trace| - 1], key, dir), trace[|trace| - 1];
      if Travels(last, key, dir) then earlier + [last] else earlier
  }

  // ---------------------------------------------------------------------------------------------------------------
  // Counters
  // ---------------------------------------------------------------------------------------------------------------

  function Bytes(ps: seq<Packet>): nat {
    if ps == [] then 0 else Bytes(ps[..|ps| - 1]) + ps[|ps| - 1].wireLen
  }

  function Payloads(ps: seq<Packet>): nat {
    if ps == [] then 0 else Payloads(ps[..|ps| - 1]) + ps[|ps| - 1].payloadLen
  }

  function Times(ps: seq<Packet>): (ts: seq<Timestamp>)
    ensures |ts| == |ps| && forall i :: 0 <= i < |ps| ==> ts[i] == ps[i].time
  {
    if ps == [] then [] else Times(ps[..|ps| - 1]) + [ps[|ps| - 1].time]
  }

  /** The counters are those of the packets, and the samples are the times of the first 8192. */
  ghost predicate Summarises(s: Stats, ps: seq<Packet>) {
    && s.packets == |ps| && s.bytes == Bytes(ps) && s.payloadBytes == Payloads(ps)
    && s.samples == Times(ps)[..Min(|ps|, 8192)]
    && (s.truncated <==> |ps| > 8192)
  }

  lemma SummarySnoc(s: Stats, ps: seq<Packet>, p: Packet)
    requires Summarises(s, ps)
    ensures Summarises(Counted(s, p), ps + [p])
  {
    assert (ps + [p])[..|ps|] == ps;
  }

  /** A key has a flow exactly when the trace has a packet on it. */
  lemma {:induction false} FlowExists(trace: seq<Packet>, key: FlowKey)
    ensures key in Fold(trace) <==> exists i :: 0 <= i < |trace| && OnKey(trace[i], key)
    decreases |trace|
  {
    hide Observed, FromPacket;
    if trace != [] {
      var before := trace[..|trace| - 1];
      FlowExists(before, key);
      assert forall i :: 0 <= i < |before| ==> before[i] == trace[i];
      if OnKey(trace[|trace| - 1], key) {
      } else if key in Fold(before) {
        var i :| 0 <= i < |before| && OnKey(before[i], key);
        assert OnKey(trace[i], key);
      }
    }
  }

  lemma AlongSnoc(before: seq<Packet>, p: Packet, key: FlowKey, dir: Direction)
    ensures Along(before + [p], key, dir)
            == if Travels(p, key, dir) then Along(before, key, dir) + [p] else Along(before, key, dir)
  {
    assert (before + [p])[..|before|] == before;
  }

  /** What a flow has counted one way; nothing, when there is no flow. */
  function CountedFor(t: Table, key: FlowKey, dir: Direction): Stats {
    if key in t then StatsOf(t[key], dir) else NO_STATS
  }

  lemma CountedForStep(t: Table, p: Packet, key: FlowKey, dir: Direction)
    ensures CountedFor(Step(t, p), key, dir)
            == if Travels(p, key, dir) then Counted(CountedFor(t, key, dir), p) else CountedFor(t, key, dir)
  {
    hide Counted, FromPacket;
  }

  lemma NothingCounted(key: FlowKey, dir: Direction, mask: bv8)
    ensures Summarises(CountedFor(map[], key, dir), [])
    ensures !Carries(CountedFor(map[], key, dir).flagsSeen, mask)
  {
  }

  /** A flow counts exactly the packets of the trace on its key, each in its own direction. */
  lemma {:induction false} FlowCounts(trace: seq<Packet>, key: FlowKey, dir: Direction)
    ensures Summarises(CountedFor(Fold(trace), key, dir), Along(trace, key, dir))
    decreases |trace|
  {
    hide Summarises, Counted, Travels, CountedFor, Step;
    if trace == [] {
      NothingCounted(key, dir, 0);
    } else {
      var before, p := trace[..|trace| - 1], trace[|trace| - 1];
      assert before + [p] == trace;
      FlowCounts(before, key, dir);
      AlongSnoc(before, p, key, dir);
      CountedForStep(Fold(before), p, key, dir);
      SummarySnoc(CountedFor(Fold(before), key, dir), Along(before, key, dir), p);
    }
  }

  predicate Carries(flags: bv8, mask: bv8) {
    flags & mask != 0
  }

  ghost predicate SomeCarries(ps: seq<Packet>, mask: bv8) {
    exists i :: 0 <= i < |ps| && Carries(FlagsOf(ps[i]), mask)
  }

  lemma UnionOfFlags(a: bv8, b: bv8, mask: bv8)
    ensures Carries(a | b, mask) <==> Carries(a, mask) || Carries(b, mask)
  {
  }

  lemma CountedFlags(s: Stats, p: Packet, mask: bv8)
    ensures Carries(Counted(s, p).flagsSeen, mask) <==> Carries(s.flagsSeen, mask) || Carries(FlagsOf(p), mask)
  {
    UnionOfFlags(s.flagsSeen, FlagsOf(p), mask);
    hide Carries, FlagsOf;
  }

  lemma SomeCarriesSnoc(ps: seq<Packet>, p: Packet, mask: bv8)
    ensures SomeCarries(ps + [p], mask) <==> SomeCarries(ps, mask) || Carries(FlagsOf(p), mask)
  {
    hide FlagsOf, Carries;
    var more := ps + [p];
    if Carries(FlagsOf(p), mask) {
      assert Carries(FlagsOf(more[|ps|]), mask);
    } else if SomeCarries(ps, mask) {
      var i :| 0 <= i < |ps| && Carries(FlagsOf(ps[i]), mask);
      assert Carries(FlagsOf(more[i]), mask);
    }
  }

  /** A flow has seen a flag in a direction exactly when a packet of that direction carried it. */
  lemma {:induction false} FlowFlags(trace: seq<Packet>, key: FlowKey, dir: Direction, mask: bv8)
    ensures Carries(CountedFor(Fold(trace), key, dir).flagsSeen, mask) <==> SomeCarries(Along(trace, key, dir), mask)
    decreases |trace|
  {
    hide FlagsOf, Carries, Travels, CountedFor, Step, Counted;
    if trace == [] {
      NothingCounted(key, dir, mask);
    } else {
      var before, p := trace[..|trace| - 1], trace[|trace| - 1];
      assert before + [p] == trace;
      FlowFlags(before, key, dir, mask);
      AlongSnoc(before, p, key, dir);
      CountedForStep(Fold(before), p, key, dir);
      SomeCarriesSnoc(Along(before, key, dir), p, mask);
      CountedFlags(CountedFor(Fold(before), key, dir), p, mask);
    }
  }

  // ---------------------------------------------------------------------------------------------------------------
  // First and last
  // ---------------------------------------------------------------------------------------------------------------

  /** Some packet on the key has this time, and none is earlier. */
  ghost predicate Earliest(trace: seq<Packet>, key: FlowKey, t: Timestamp) {
    && (exists i :: 0 <= i < |trace| && OnKey(trace[i], key) && trace[i].time == t)
    && forall i :: 0 <= i < |trace| && OnKey(trace[i], key) ==> !Before(trace[i].time, t)
  }

  ghost predicate Latest(trace: seq<Packet>, key: FlowKey, t: Timestamp) {
    && (exists i :: 0 <= i < |trace| && OnKey(trace[i], key) && trace[i].time == t)
    && forall i :: 0 <= i < |trace| && OnKey(trace[i], key) ==> !Before(t, trace[i].time)
  }

  lemma SeenStep(before: seq<Packet>, key: FlowKey, p: Packet, first: Timestamp, last: Timestamp)
    requires Earliest(before, key, first) && Latest(before, key, last) && OnKey(p, key)
    ensures Earliest(before + [p], key, if Before(p.time, first) then p.time else first)
    ensures Latest(before + [p], key, if Before(last, p.time) then p.time else last)
  {
    hide OnKey;
    var trace := before + [p];
    var i :| 0 <= i < |before| && OnKey(before[i], key) && before[i].time == first;
    var j :| 0 <= j < |before| && OnKey(before[j], key) && before[j].time == last;
    assert trace[i] == before[i] && trace[j] == before[j] && trace[|before|] == p;
    assert forall k :: 0 <= k < |trace| ==> trace[k] == if k < |before| then before[k] else p;
  }

  lemma SeenAlone(before: seq<Packet>, key: FlowKey, p: Packet)
    requires OnKey(p, key) && forall i :: 0 <= i < |before| ==> !OnKey(before[i], key)
    ensures Earliest(before + [p], key, p.time) && Latest(before + [p], key, p.time)
  {
    hide OnKey;
    assert (before + [p])[|before|] == p;
  }

  lemma SeenKept(before: seq<Packet>, key: FlowKey, p: Packet, first: Timestamp, last: Timestamp)
    requires Earliest(before, key, first) && Latest(before, key, last) && !OnKey(p, key)
    ensures Earliest(before + [p], key, first) && Latest(before + [p], key, last)
  {
    hide OnKey;
    var trace := before + [p];
    var i :| 0 <= i < |before| && OnKey(before[i], key) && before[i].time == first;
    var j :| 0 <= j < |before| && OnKey(before[j], key) && before[j].time == last;
    assert trace[i] == before[i] && trace[j] == before[j];
  }

  lemma NotBeforeItself(t: Timestamp)
    ensures !Before(t, t)
  {
  }

  /** First and last seen are the least and greatest times on the key, in whatever order the packets came. */
  lemma {:induction false} FlowSpan(trace: seq<Packet>, key: FlowKey)
    requires key in Fold(trace)
    ensures Earliest(trace, key, Fold(trace)[key].firstSeen) && Latest(trace, key, Fold(trace)[key].lastSeen)
    decreases |trace|
  {
    hide Earliest, Latest, FromPacket, Before, Counted;
    var before, p := trace[..|trace| - 1], trace[|trace| - 1];
    assert before + [p] == trace;
    if key in Fold(before) {
      FlowSpan(before, key);
      var f := Fold(before)[key];
      if OnKey(p, key) {
        SeenStep(before, key, p, f.firstSeen, f.lastSeen);
      } else {
        SeenKept(before, key, p, f.firstSeen, f.lastSeen);
      }
    } else {
      FlowExists(before, key);
      SeenAlone(before, key, p);
      NotBeforeItself(p.time);
    }
  }

  // ---------------------------------------------------------------------------------------------------------------
  // Who opened the conversation
  // ---------------------------------------------------------------------------------------------------------------

  /** TCP, with the SYN bit (2) set and the ACK bit (16) clear. */
  predicate FirstSyn(p: Packet) {
    p.transport.Tcp? && p.transport.flags & 0x12 == 0x02
  }

  lemma SynByBits(p: Packet)
    ensures BareSyn(p) <==> FirstSyn(p)
  {
    if p.transport.Tcp? {
      TwoBits(p.transport.flags);
    }
  }

  lemma TwoBits(flags: bv8)
    ensures flags & SYN != 0 && flags & ACK == 0 <==> flags & 0x12 == 0x02
  {
  }

  predicate Opens(p: Packet, key: FlowKey) {
    OnKey(p, key) && FirstSyn(p)
  }

  ghost predicate FirstOpening(trace: seq<Packet>, key: FlowKey, i: nat) {
    i < |trace| && Opens(trace[i], key) && forall j :: 0 <= j < i ==> !Opens(trace[j], key)
  }

  ghost predicate FirstOnKey(trace: seq<Packet>, key: FlowKey, i: nat) {
    i < |trace| && OnKey(trace[i], key) && forall j :: 0 <= j < i ==> !OnKey(trace[j], key)
  }

  ghost predicate NoOpening(trace: seq<Packet>, key: FlowKey) {
    forall i :: 0 <= i < |trace| ==> !Opens(trace[i], key)
  }

  /** What a flow says of its opening: the packet at `at` settled it. */
  ghost predicate Opened(trace: seq<Packet>, key: FlowKey, f: FlowState, at: nat) {
    && at < |trace| && Travels(trace[at], key, f.initiator)
    && (if f.sawHandshake then FirstOpening(trace, key, at) else NoOpening(trace, key) && FirstOnKey(trace, key, at))
  }

  lemma OpenedStep(before: seq<Packet>, key: FlowKey, p: Packet, f: FlowState, at: nat)
    requires Opened(before, key, f, at) && OnKey(p, key)
    ensures Opened(before + [p], key, Observed(f, p, FromPacket(p).value.dir), if FirstSyn(p) && !f.sawHandshake then |before| else at)
  {
    hide BareSyn, FirstSyn, FromPacket, Counted;
    SynByBits(p);
    var trace := before + [p];
    assert forall k :: 0 <= k < |trace| ==> trace[k] == if k < |before| then before[k] else p;
  }

  lemma OpenedKept(before: seq<Packet>, key: FlowKey, p: Packet, f: FlowState, at: nat)
    requires Opened(before, key, f, at) && !OnKey(p, key)
    ensures Opened(before + [p], key, f, at)
  {
    hide FirstSyn, FromPacket;
    var trace := before + [p];
    assert forall k :: 0 <= k < |trace| ==> trace[k] == if k < |before| then before[k] else p;
  }

  lemma OpenedAlone(before: seq<Packet>, key: FlowKey, p: Packet)
    requires OnKey(p, key) && forall i :: 0 <= i < |before| ==> !OnKey(before[i], key)
    ensures var dir := FromPacket(p).value.dir;
            Opened(before + [p], key, Observed(NewFlow(p.time, dir), p, dir), |before|)
  {
    hide BareSyn, FirstSyn, FromPacket, Counted;
    SynByBits(p);
    var trace := before + [p];
    assert forall k :: 0 <= k < |trace| ==> trace[k] == if k < |before| then before[k] else p;
  }

  /** The initiator is the sender of the earliest bare SYN, or of the first packet when there is none. */
  lemma {:induction false} FlowOpening(trace: seq<Packet>, key: FlowKey) returns (at: nat)
    requires key in Fold(trace)
    ensures Opened(trace, key, Fold(trace)[key], at)
    decreases |trace|
  {
    hide Opened, FromPacket, FirstSyn, Observed;
    var before, p := trace[..|trace| - 1], trace[|trace| - 1];
    assert before + [p] == trace;
    if key in Fold(before) {
      at := FlowOpening(before, key);
      var f := Fold(before)[key];
      if OnKey(p, key) {
        OpenedStep(before, key, p, f, at);
        at := if FirstSyn(p) && !f.sawHandshake then |before| else at;
      } else {
        OpenedKept(before, key, p, f, at);
      }
    } else {
      FlowExists(before, key);
      OpenedAlone(before, key, p);
      at := |before|;
    }
  }

  /** The endpoint a packet comes from. */
  function Sender(p: Packet): Endpoint
    requires p.network.Some?
  {
    Endpoint(p.network.value.src, if p.transport.NoPorts? then 0 else p.transport.srcPort)
  }

  function Receiver(p: Packet): Endpoint
    requires p.network.Some?
  {
    Endpoint(p.network.value.dst, if p.transport.NoPorts? then 0 else p.transport.dstPort)
  }

  /** When a bare SYN was captured, the client is the sender of the first, whatever the ports look like. */
  lemma ClientSentTheSyn(trace: seq<Packet>, key: FlowKey, known: (u16, bool) -> bool, at: nat)
    requires FirstOpening(trace, key, at)
    ensures key in Fold(trace) && Fold(trace)[key].sawHandshake
    ensures Client(key, Fold(trace)[key], known) == Sender(trace[at])
    ensures Server(key, Fold(trace)[key], known) == Receiver(trace[at])
  {
    FlowExists(trace, key);
    var settled := FlowOpening(trace, key);
    assert settled == at;
  }

  /** Without a bare SYN, between equal ports, the client is the sender of the first packet. */
  lemma EqualPortsFirstSender(trace: seq<Packet>, key: FlowKey, known: (u16, bool) -> bool, at: nat)
    requires NoOpening(trace, key) && FirstOnKey(trace, key, at) && key.a.port == key.b.port
    ensures key in Fold(trace) && !Fold(trace)[key].sawHandshake
    ensures Client(key, Fold(trace)[key], known) == Sender(trace[at])
    ensures Server(key, Fold(trace)[key], known) == Receiver(trace[at])
  {
    FlowExists(trace, key);
    var settled := FlowOpening(trace, key);
    assert settled == at;
  }

  lemma OnlySynSettles(f: FlowState, p: Packet, dir: Direction)
    requires !FirstSyn(p)
    ensures Observed(f, p, dir).initiator == f.initiator && Observed(f, p, dir).sawHandshake == f.sawHandshake
  {
    SynByBits(p);
    hide BareSyn, FirstSyn, Counted;
  }

  /** Once a flow exists, no SYN-ACK, no other TCP packet and no UDP packet, in any number, changes who opened it. */
  lemma {:induction false} OthersNeverSettle(trace: seq<Packet>, more: seq<Packet>, key: FlowKey)
    requires key in Fold(trace) && forall i :: 0 <= i < |more| ==> !FirstSyn(more[i])
    ensures key in Fold(trace + more)
    ensures Fold(trace + more)[key].initiator == Fold(trace)[key].initiator
    ensures Fold(trace + more)[key].sawHandshake == Fold(trace)[key].sawHandshake
    decreases |more|
  {
    hide FromPacket, Observed, FirstSyn;
    if more == [] {
      assert trace + more == trace;
    } else {
      var n := |more| - 1;
      OthersNeverSettle(trace, more[..n], key);
      assert (trace + more)[..|trace + more| - 1] == trace + more[..n];
      if OnKey(more[n], key) {
        OnlySynSettles(Fold(trace + more[..n])[key], more[n], FromPacket(more[n]).value.dir);
      }
    }
  }

  /** A packet with a network layer is on exactly one key, and goes from the sender's end of it to the receiver's. */
  lemma RouteMeaning(p: Packet, key: FlowKey, dir: Direction)
    ensures FromPacket(p).Some? <==> p.network.Some?
    ensures Travels(p, key, dir) ==>
              && SourceOf(key, dir) == Sender(p) && SourceOf(key, Opposite(dir)) == Receiver(p)
              && key.protocol == p.network.value.protocol
    ensures p.network.Some? && Sender(p) == Receiver(p) && Travels(p, key, dir) ==> dir == AToB
  {
  }

  /** On timestamps whose nanoseconds are a fraction of a second the order is that of the instants. */
  lemma BeforeIsEarlier(t: Timestamp, u: Timestamp)
    requires t.nanos < 1_000_000_000 && u.nanos < 1_000_000_000
    ensures Before(t, u) <==> t.secs * 1_000_000_000 + t.nanos < u.secs * 1_000_000_000 + u.nanos
  {
  }

  /**
   Without a handshake the ports decide, whichever end the key puts first: the end with the one known port is the
   server, and when both or neither are known, the end with the lower port.
   */
  lemma PortsDecide(key: FlowKey, f: FlowState, known: (u16, bool) -> bool)
    requires !f.sawHandshake && key.a.port != key.b.port
    ensures var c, s, tcp := Client(key, f, known), Server(key, f, known), key.protocol == 6;
            && {c, s} == {key.a, key.b}
            && (if known(s.port, tcp) == known(c.port, tcp) then s.port < c.port else known(s.port, tcp))
  {
  }

  // ---------------------------------------------------------------------------------------------------------------
  // Conservation
  // ---------------------------------------------------------------------------------------------------------------

  /** The packets of a trace that belong to some flow. */
  function Routable(trace: seq<Packet>): seq<Packet> {
    if trace == [] then []
    else
      var earlier, last := Routable(trace[..|trace| - 1]), trace[|trace| - 1];
      if FromPacket(last).Some? then earlier + [last] else earlier
  }

  ghost function PacketCounts(t: Table): map<FlowKey, nat> {
    map k | k in t :: t[k].aToB.packets + t[k].bToA.packets
  }

  ghost function ByteCounts(t: Table): map<FlowKey, nat> {
    map k | k in t :: t[k].aToB.bytes + t[k].bToA.bytes
  }

  lemma CountsSet(t: Table, key: FlowKey, f: FlowState)
    ensures PacketCounts(t[key := f]) == PacketCounts(t)[key := f.aToB.packets + f.bToA.packets]
    ensures ByteCounts(t[key := f]) == ByteCounts(t)[key := f.aToB.bytes + f.bToA.bytes]
  {
  }

  lemma CountsOf(t: Table, key: FlowKey)
    ensures PacketCounts(t).Keys == t.Keys == ByteCounts(t).Keys
    ensures key in t ==> PacketCounts(t)[key] == t[key].aToB.packets + t[key].bToA.packets
    ensures key in t ==> ByteCounts(t)[key] == t[key].aToB.bytes + t[key].bToA.bytes
  {
  }

  lemma ObservedCounts(f: FlowState, p: Packet, dir: Direction)
    ensures var g := Observed(f, p, dir);
            && g.aToB.packets + g.bToA.packets == f.aToB.packets + f.bToA.packets + 1
            && g.aToB.bytes + g.bToA.bytes == f.aToB.bytes + f.bToA.bytes + p.wireLen
  {
  }

  lemma RoutedCounts(t: Table, p: Packet)
    requires FromPacket(p).Some?
    ensures SumOver(PacketCounts(Step(t, p))) == SumOver(PacketCounts(t)) + 1
    ensures SumOver(ByteCounts(Step(t, p))) == SumOver(ByteCounts(t)) + p.wireLen
  {
    hide FromPacket, PacketCounts, ByteCounts, Observed;
    var key, dir := FromPacket(p).value.key, FromPacket(p).value.dir;
    var was := Entry(t, key, p.time, dir);
    var f := Observed(was, p, dir);
    ObservedCounts(was, p, dir);
    CountsSet(t, key, f);
    CountsOf(t, key);
    SumSet(PacketCounts(t), key, f.aToB.packets + f.bToA.packets);
    SumSet(ByteCounts(t), key, f.aToB.bytes + f.bToA.bytes);
  }

  lemma NoCounts()
    ensures PacketCounts(map[]) == map[] && ByteCounts(map[]) == map[]
  {
  }

  /** No packet is lost or counted twice: the flows together count every routable packet and its bytes. */
  lemma {:induction false} Conserved(trace: seq<Packet>)
    ensures SumOver(PacketCounts(Fold(trace))) == |Routable(trace)|
    ensures SumOver(ByteCounts(Fold(trace))) == Bytes(Routable(trace))
    decreases |trace|
  {
    hide FromPacket, PacketCounts, ByteCounts;
    if trace == [] {
      NoCounts();
    } else {
      var before, p := trace[..|trace| - 1], trace[|trace| - 1];
      Conserved(before);
      if FromPacket(p).Some? {
        RoutedCounts(Fold(before), p);
        assert (Routable(before) + [p])[..|Routable(before)|] == Routable(before);
      }
    }
  }

  // ---------------------------------------------------------------------------------------------------------------
  // Seen from the other end
  // ---------------------------------------------------------------------------------------------------------------

  /** The same packet travelling the other way. */
  function Turned(p: Packet): Packet {
    var network := if p.network.None? then None else Some(Network(p.network.value.dst, p.network.value.src, p.network.value.protocol));
    var transport := match p.transport
      case Tcp(src, dst, flags) => Tcp(dst, src, flags)
      case Udp(src, dst) => Udp(dst, src)
      case NoPorts => NoPorts;
    p.(network := network, transport := transport)
  }

  function AllTurned(trace: seq<Packet>): seq<Packet> {
    if trace == [] then [] else AllTurned(trace[..|trace| - 1]) + [Turned(trace[|trace| - 1])]
  }

  function Mirrored(f: FlowState): FlowState {
    f.(aToB := f.bToA, bToA := f.aToB, initiator := Opposite(f.initiator))
  }

  function MirroredTable(t: Table): Table {
    map k | k in t :: Mirrored(t[k])
  }

  /** The packet goes from an endpoint to itself. */
  predicate ToItself(p: Packet) {
    p.network.Some? && Sender(p) == Receiver(p)
  }

  lemma TurnedRoute(p: Packet)
    requires !ToItself(p)
    ensures FromPacket(Turned(p)).Some? <==> FromPacket(p).Some?
    ensures FromPacket(p).Some? ==>
              FromPacket(Turned(p)) == Some(Routed(FromPacket(p).value.key, Opposite(FromPacket(p).value.dir)))
  {
    if p.network.Some? {
      BothDirectionsShareKey(Sender(p), Receiver(p), p.network.value.protocol);
    }
  }

  lemma MirroredStep(t: Table, p: Packet)
    requires !ToItself(p)
    ensures Step(MirroredTable(t), Turned(p)) == MirroredTable(Step(t, p))
  {
    TurnedRoute(p);
    hide FromPacket;
    if FromPacket(p).Some? {
      var key, dir := FromPacket(p).value.key, FromPacket(p).value.dir;
      MirroredObserved(Entry(t, key, p.time, dir), p, dir);
      assert Entry(MirroredTable(t), key, p.time, Opposite(dir)) == Mirrored(Entry(t, key, p.time, dir));
    }
  }

  lemma MirroredObserved(f: FlowState, p: Packet, dir: Direction)
    ensures Observed(Mirrored(f), Turned(p), Opposite(dir)) == Mirrored(Observed(f, p, dir))
  {
  }

  /** A trace and the same trace with every packet turned round give the same flows, seen from the other end. */
  lemma {:induction false} FoldMirrored(trace: seq<Packet>)
    requires forall i :: 0 <= i < |trace| ==> !ToItself(trace[i])
    ensures Fold(AllTurned(trace)) == MirroredTable(Fold(trace))
    decreases |trace|
  {
    hide Step, ToItself;
    if trace != [] {
      var before, p := trace[..|trace| - 1], trace[|trace| - 1];
      FoldMirrored(before);
      MirroredStep(Fold(before), p);
      assert AllTurned(trace)[..|AllTurned(trace)| - 1] == AllTurned(before);
    }
  }

  lemma {:induction false} TurnedAlong(trace: seq<Packet>, i: nat, key: FlowKey, dir: Direction)
    requires i < |trace| && Travels(Turned(trace[i]), key, dir)
    ensures |Along(AllTurned(trace), key, dir)| >= 1
    decreases |trace|
  {
    hide Travels, Turned, Along;
    var n := |trace| - 1;
    var before := trace[..n];
    AlongSnoc(AllTurned(before), Turned(trace[n]), key, dir);
    if i < n {
      TurnedAlong(before, i, key, dir);
    }
  }

  /** On the key of an endpoint with itself nothing travels back. */
  lemma {:induction false} NothingBack(trace: seq<Packet>, x: Endpoint, protocol: byte)
    ensures Along(trace, FlowKey(x, x, protocol), BToA) == []
    decreases |trace|
  {
    if trace != [] {
      NothingBack(trace[..|trace| - 1], x, protocol);
    }
  }

  /** A packet from an endpoint to itself travels the first way whichever way it is turned, so its flow has no mirror image. */
  lemma {:induction false} SelfTrafficHasNoMirror(trace: seq<Packet>, i: nat)
    requires i < |trace| && ToItself(trace[i])
    ensures Fold(AllTurned(trace)) != MirroredTable(Fold(trace))
  {
    var x, protocol := Sender(trace[i]), trace[i].network.value.protocol;
    var key := FlowKey(x, x, protocol);
    assert Travels(Turned(trace[i]), key, AToB) && OnKey(trace[i], key);
    hide Step, Travels, Turned, ToItself, FromPacket;
    TurnedAlong(trace, i, key, AToB);
    FlowCounts(AllTurned(trace), key, AToB);
    NothingBack(trace, x, protocol);
    FlowCounts(trace, key, BToA);
    FlowExists(trace, key);
    assert CountedFor(Fold(AllTurned(trace)), key, AToB).packets >= 1;
    assert CountedFor(MirroredTable(Fold(trace)), key, AToB).packets == 0;
  }

  /** Turning every packet round gives the mirrored flows exactly when no packet goes from an endpoint to itself. */
  lemma MirroredExactly(trace: seq<Packet>)
    ensures Fold(AllTurned(trace)) == MirroredTable(Fold(trace)) <==> forall i :: 0 <= i < |trace| ==> !ToItself(trace[i])
  {
    hide Fold, AllTurned, MirroredTable, ToItself;
    if i :| 0 <= i < |trace| && ToItself(trace[i]) {
      SelfTrafficHasNoMirror(trace, i);
    } else {
      FoldMirrored(trace);
    }
  }
}
