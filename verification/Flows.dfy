/** The flow table: both directions of a conversation folded into one record. */
module Flows {
  import opened Wrappers
  import opened Words
  import opened Net
  import opened Clock
  import opened FlowKeys

  const MAX_TIMESTAMP_SAMPLES: nat := 8192
  const SYN: bv8 := 0x02
  const ACK: bv8 := 0x10

  datatype Network = Network(src: IpAddr, dst: IpAddr, protocol: byte)

  datatype Transport = Tcp(srcPort: u16, dstPort: u16, flags: bv8) | Udp(srcPort: u16, dstPort: u16) | NoPorts

  /** What the flow table reads of a decoded packet. */
  datatype Packet = Packet(time: Timestamp, wireLen: u32, payloadLen: nat, network: Option<Network>, transport: Transport)

  /** `FlowKey::from_packet`. */
  function FromPacket(p: Packet): Option<Routed> {
    if p.network.None? then None
    else
      var n := p.network.value;
      var (src, dst) := if p.transport.NoPorts? then (0, 0) else (p.transport.srcPort, p.transport.dstPort);
      Some(Canonical(Endpoint(n.src, src), Endpoint(n.dst, dst), n.protocol))
  }

  /** A SYN without ACK on TCP. */
  predicate BareSyn(p: Packet) {
    p.transport.Tcp? && p.transport.flags & SYN != 0 && p.transport.flags & ACK == 0
  }

  /** The order Rust derives on timestamps. */
  predicate Before(t: Timestamp, u: Timestamp) {
    t.secs < u.secs || (t.secs == u.secs && t.nanos < u.nanos)
  }

  // ---------------------------------------------------------------------------------------------------------------
  // One packet
  // ---------------------------------------------------------------------------------------------------------------

  datatype Stats = Stats(packets: nat, bytes: nat, payloadBytes: nat, flagsSeen: bv8, samples: seq<Timestamp>, truncated: bool)

  const NO_STATS: Stats := Stats(0, 0, 0, 0, [], false)

  function FlagsOf(p: Packet): bv8 {
    if p.transport.Tcp? then p.transport.flags else 0
  }

  /** `DirectionStats::observe`. */
  function Counted(s: Stats, p: Packet): Stats {
    var room := |s.samples| < MAX_TIMESTAMP_SAMPLES;
    Stats(s.packets + 1, s.bytes + p.wireLen, s.payloadBytes + p.payloadLen, s.flagsSeen | FlagsOf(p),
          if room then s.samples + [p.time] else s.samples, s.truncated || !room)
  }

  datatype FlowState = FlowState(
    firstSeen: Timestamp, lastSeen: Timestamp, aToB: Stats, bToA: Stats, sawHandshake: bool, initiator: Direction
  )

  /** `Flow::new`. */
  function NewFlow(time: Timestamp, dir: Direction): FlowState {
    FlowState(time, time, NO_STATS, NO_STATS, false, dir)
  }

  function StatsOf(f: FlowState, dir: Direction): Stats {
    if dir == AToB then f.aToB else f.bToA
  }

  /** The part of `observe` on the packet's own flow. */
  function Observed(f: FlowState, p: Packet, dir: Direction): FlowState {
    FlowState(
      if Before(p.time, f.firstSeen) then p.time else f.firstSeen,
      if Before(f.lastSeen, p.time) then p.time else f.lastSeen,
      if dir == AToB then Counted(f.aToB, p) else f.aToB,
      if dir == BToA then Counted(f.bToA, p) else f.bToA,
      f.sawHandshake || BareSyn(p),
      if BareSyn(p) && !f.sawHandshake then dir else f.initiator)
  }

  type Table = map<FlowKey, FlowState>

  function Entry(t: Table, key: FlowKey, time: Timestamp, dir: Direction): FlowState {
    if key in t then t[key] else NewFlow(time, dir)
  }

  /** `FlowTable::observe`. */
  function Step(t: Table, p: Packet): Table {
    var r := FromPacket(p);
    if r.None? then t
    else
      var key, dir := r.value.key, r.value.dir;
      t[key := Observed(Entry(t, key, p.time, dir), p, dir)]
  }

  // ---------------------------------------------------------------------------------------------------------------
  // The client and the server of a flow
  // ---------------------------------------------------------------------------------------------------------------

  /** `client_direction`; `known` says which ports have a service name. */
  function ClientDirection(key: FlowKey, f: FlowState, known: (u16, bool) -> bool): Direction {
    if f.sawHandshake || key.a.port == key.b.port then f.initiator
    else
      var tcp := key.protocol == PROTO_TCP;
      var a, b := known(key.a.port, tcp), known(key.b.port, tcp);
      if a && !b then BToA
      else if b && !a then AToB
      else if key.a.port > key.b.port then AToB
      else BToA
  }

  function SourceOf(key: FlowKey, dir: Direction): Endpoint {
    if dir == AToB then key.a else key.b
  }

  /** `client` and `server`. */
  function Client(key: FlowKey, f: FlowState, known: (u16, bool) -> bool): Endpoint {
    SourceOf(key, ClientDirection(key, f, known))
  }

  function Server(key: FlowKey, f: FlowState, known: (u16, bool) -> bool): Endpoint {
    SourceOf(key, Opposite(ClientDirection(key, f, known)))
  }

  // ---------------------------------------------------------------------------------------------------------------
  // The table
  // ---------------------------------------------------------------------------------------------------------------

  class DirectionStats {
    ghost const of: Routed // the flow and the direction counted
    var packets: nat
    var bytes: nat
    var payloadBytes: nat
    var tcpFlagsSeen: bv8
    var timestamps: seq<Timestamp>
    var samplesTruncated: bool

    ghost function View(): Stats
      reads this
    {
      Stats(packets, bytes, payloadBytes, tcpFlagsSeen, timestamps, samplesTruncated)
    }

    constructor (ghost of: Routed)
      ensures View() == NO_STATS && this.of == of
    {
      this.of := of;
      packets, bytes, payloadBytes, tcpFlagsSeen, timestamps, samplesTruncated := 0, 0, 0, 0, [], false;
    }

    method Observe(p: Packet)
      modifies this
      ensures View() == Counted(old(View()), p)
    {
      packets := packets + 1;
      bytes := bytes + p.wireLen;
      payloadBytes := payloadBytes + p.payloadLen;
      if p.transport.Tcp? {
        tcpFlagsSeen := tcpFlagsSeen | p.transport.flags;
      }
      if |timestamps| < MAX_TIMESTAMP_SAMPLES {
        timestamps := timestamps + [p.time];
      } else {
        samplesTruncated := true;
      }
    }
  }

  class Flow {
    const key: FlowKey
    var firstSeen: Timestamp
    var lastSeen: Timestamp
    const aToB: DirectionStats
    const bToA: DirectionStats
    var sawHandshake: bool
    var initiator: Direction
    ghost var state: FlowState // what the fields stand for

    ghost predicate Valid()
      reads this, aToB, bToA
    {
      && aToB.of == Routed(key, AToB) && bToA.of == Routed(key, BToA)
      && state == FlowState(firstSeen, lastSeen, aToB.View(), bToA.View(), sawHandshake, initiator)
    }

    constructor (key: FlowKey, time: Timestamp, initiator: Direction)
      ensures Valid() && fresh(aToB) && fresh(bToA) && this.key == key && state == NewFlow(time, initiator)
    {
      this.key, this.initiator, firstSeen, lastSeen, sawHandshake := key, initiator, time, time, false;
      var there := new DirectionStats(Routed(key, AToB));
      var back := new DirectionStats(Routed(key, BToA));
      aToB, bToA := there, back;
      state := NewFlow(time, initiator);
    }

    method Observe(p: Packet, dir: Direction)
      requires Valid()
      modifies this, aToB, bToA
      ensures Valid() && state == Observed(old(state), p, dir)
    {
      ghost var was := state;
      if Before(p.time, firstSeen) {
        firstSeen := p.time;
      }
      if Before(lastSeen, p.time) {
        lastSeen := p.time;
      }
      if BareSyn(p) {
        if !sawHandshake {
          initiator := dir;
        }
        sawHandshake := true;
      }
      if dir == AToB {
        aToB.Observe(p);
      } else {
        bToA.Observe(p);
      }
      state := Observed(was, p, dir);
    }
  }

  /** A flow stands under a key for a state. */
  ghost predicate Filed(k: FlowKey, f: Flow, s: FlowState)
    reads f, f.aToB, f.bToA
  {
    f.key == k && f.Valid() && f.state == s
  }

  class FlowTable {
    var flows: map<FlowKey, Flow>
    ghost var table: Table // what the fields stand for
    ghost var Repr: set<Flow>
    ghost var Counters: set<DirectionStats>

    /** Each flow is filed under its own key, so no two flows share their counters. */
    ghost predicate Valid()
      reads this, Repr, Counters
    {
      && table.Keys == flows.Keys
      && (forall k :: k in flows ==> flows[k] in Repr && flows[k].aToB in Counters && flows[k].bToA in Counters)
      && (forall k :: k in flows ==> Filed(k, flows[k], table[k]))
    }

    constructor ()
      ensures Valid() && table == map[] && Repr == {} && Counters == {}
    {
      flows, table, Repr, Counters := map[], map[], {}, {};
    }

    /** File a flow under its own key. */
    method File(flow: Flow)
      requires Valid() && flow.key !in flows && flow.Valid()
      modifies this
      ensures Valid() && Repr == old(Repr) + {flow} && Counters == old(Counters) + {flow.aToB, flow.bToA}
      ensures flow.key in flows && table == old(table)[flow.key := flow.state]
    {
      hide Flow.Valid;
      assert Filed(flow.key, flow, flow.state);
      hide Filed;
      Repr, Counters := Repr + {flow}, Counters + {flow.aToB, flow.bToA};
      assert Valid();
      flows, table := flows[flow.key := flow], table[flow.key := flow.state];
    }

    /** `entry(key).or_insert_with(..)`, for a key that has no flow yet. */
    method Insert(key: FlowKey, time: Timestamp, dir: Direction)
      requires Valid() && key !in flows
      modifies this
      ensures Valid() && fresh(Repr - old(Repr)) && fresh(Counters - old(Counters)) && key in flows
      ensures table == old(table)[key := NewFlow(time, dir)]
    {
      hide Flow.Valid, NewFlow;
      var flow := new Flow(key, time, dir);
      File(flow);
    }

    lemma KeptApart(key: FlowKey)
      requires Valid() && key in flows
      ensures forall k :: k in flows && k != key ==> Apart(flows[k], flows[key])
    {
    }

    /** Let the flow under a key observe a packet. */
    method Deliver(key: FlowKey, p: Packet, dir: Direction)
      requires Valid() && key in flows
      modifies `table, Repr, Counters
      ensures Valid() && table == old(table)[key := Observed(old(table)[key], p, dir)]
    {
      hide Observed, Flow.Valid;
      var flow := flows[key];
      KeptApart(key);
      flow.Observe(p, dir);
      table := table[key := flow.state];
    }

    /** `entry(key)` with its default. */
    method Track(key: FlowKey, time: Timestamp, dir: Direction)
      requires Valid()
      modifies this
      ensures Valid() && fresh(Repr - old(Repr)) && fresh(Counters - old(Counters)) && key in flows
      ensures table == old(table)[key := Entry(old(table), key, time, dir)]
    {
      hide Flow.Valid, NewFlow;
      if key !in flows {
        Insert(key, time, dir);
      } else {
        assert table[key := table[key]] == table;
      }
    }

    method Observe(p: Packet) returns (key: Option<FlowKey>)
      requires Valid()
      modifies this, Repr, Counters
      ensures Valid() && fresh(Repr - old(Repr)) && fresh(Counters - old(Counters))
      ensures table == Step(old(table), p)
      ensures key == match FromPacket(p) { case None => None case Some(r) => Some(r.key) }
    {
      hide Valid, FromPacket, Observed, NewFlow;
      var routed := FromPacket(p);
      if routed.None? {
        return None;
      }
      var k, dir := routed.value.key, routed.value.dir;
      Track(k, p.time, dir);
      Deliver(k, p, dir);
      return Some(k);
    }
  }

  ghost predicate Apart(f: Flow, g: Flow) {
    f != g && f.aToB != g.aToB && f.aToB != g.bToA && f.bToA != g.aToB && f.bToA != g.bToA
  }
}
