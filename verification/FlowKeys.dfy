/** The canonical five-tuple both directions of a conversation share. */
module FlowKeys {
  import opened Words
  import opened Net

  datatype Endpoint = Endpoint(ip: IpAddr, port: u16)

  datatype FlowKey = FlowKey(a: Endpoint, b: Endpoint, protocol: byte)

  datatype Direction = AToB | BToA

  /** The order Rust derives: IPv4 before IPv6, then by address, then by port. */
  predicate IpLess(x: IpAddr, y: IpAddr) {
    if x.V4? then y.V6? || x.v4 < y.v4 else y.V6? && x.v6 < y.v6
  }

  predicate AtMost(x: Endpoint, y: Endpoint) {
    IpLess(x.ip, y.ip) || (x.ip == y.ip && x.port <= y.port)
  }

  /** A canonical key, and which way along it a packet went. */
  datatype Routed = Routed(key: FlowKey, dir: Direction)

  /** `FlowKey::canonical`. */
  function Canonical(src: Endpoint, dst: Endpoint, protocol: byte): Routed {
    if AtMost(src, dst) then Routed(FlowKey(src, dst, protocol), AToB)
    else Routed(FlowKey(dst, src, protocol), BToA)
  }

  function Opposite(d: Direction): Direction {
    if d == AToB then BToA else AToB
  }

  /** The two directions between distinct endpoints share one key and differ in direction. */
  lemma BothDirectionsShareKey(x: Endpoint, y: Endpoint, protocol: byte)
    requires x != y
    ensures Canonical(y, x, protocol) == Routed(Canonical(x, y, protocol).key, Opposite(Canonical(x, y, protocol).dir))
  {
  }

  /** Key and direction give the endpoints back, so different conversations never share a directed key. */
  lemma CanonicalIsInjective(src: Endpoint, dst: Endpoint, protocol: byte, src': Endpoint, dst': Endpoint, protocol': byte)
    ensures Canonical(src, dst, protocol) == Canonical(src', dst', protocol') <==>
            src == src' && dst == dst' && protocol == protocol'
  {
  }

  /** A packet from an endpoint to itself always travels the first way. */
  lemma SelfTrafficIsAToB(x: Endpoint, protocol: byte)
    ensures Canonical(x, x, protocol).dir == AToB
  {
  }

  /** An endpoint as one number: IPv6 above all IPv4, then the address, then the port. */
  function Rank(x: Endpoint): nat {
    (if x.ip.V4? then x.ip.v4 else 0x1_0000_0000_0000_0000_0000_0000_0000_0000 + x.ip.v6) * 0x1_0000 + x.port
  }

  /** A key holds its endpoints in ascending order, and the direction tells which of them sent. */
  lemma KeyIsOrdered(src: Endpoint, dst: Endpoint, protocol: byte)
    ensures var r := Canonical(src, dst, protocol);
            && Rank(r.key.a) <= Rank(r.key.b) && r.key.protocol == protocol
            && (r.dir == AToB <==> Rank(src) <= Rank(dst))
            && (if r.dir == AToB then r.key.a == src && r.key.b == dst else r.key.a == dst && r.key.b == src)
  {
  }
}
