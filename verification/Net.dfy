/** Addresses and the fragment fields of the IP headers. */
module Net {
  import opened Words
  import opened Wrappers

  const PROTO_TCP: byte := 6

  /** An address by family and numeric value. */
  datatype IpAddr = V4(v4: u32) | V6(v6: u128)

  /** The fields of a decoded IP header that routing a fragment needs. */
  datatype IpHeader =
    | Ipv4(src: IpAddr, dst: IpAddr, protocol: byte, identification: u16, offset: u16, more: bool, fragmented: bool)
    | Ipv6(src: IpAddr, dst: IpAddr, protocol: byte, identification6: u32, offset: u16, more: bool, fragmented: bool)

  /** The fragment fields `parse_ipv4` reads: three flag bits over 13 bits of offset, in units of eight bytes. */
  function ParsedIpv4(src: IpAddr, dst: IpAddr, protocol: byte, identification: u16, flagsFrag: u16): IpHeader {
    var more, offset := flagsFrag / 0x2000 % 2 == 1, flagsFrag % 0x2000 * 8;
    Ipv4(src, dst, protocol, identification, offset, more, more || offset > 0)
  }

  /** The fragment header the extension walk of `parse_ipv6` read last. */
  datatype FragmentHeader = FragmentHeader(offFlags: u16, identification: u32)

  /** Any fragment header marks the packet, whatever its fields say. */
  function ParsedIpv6(src: IpAddr, dst: IpAddr, protocol: byte, frag: Option<FragmentHeader>): IpHeader {
    match frag
    case None => Ipv6(src, dst, protocol, 0, 0, false, false)
    case Some(h) => Ipv6(src, dst, protocol, h.identification, h.offFlags / 8 * 8, h.offFlags % 2 == 1, true)
  }

  /** What the two parsers guarantee of the fragment fields. */
  ghost predicate FromParser(h: IpHeader) {
    && h.offset <= 65_528 && h.offset % 8 == 0
    && (h.Ipv4? ==> (h.fragmented <==> h.more || h.offset > 0))
    && (h.Ipv6? && !h.fragmented ==> !h.more && h.offset == 0)
  }

  /** Whatever the words on the wire, a parsed header keeps that guarantee. */
  lemma ParsersGuarantee(src: IpAddr, dst: IpAddr, protocol: byte, identification: u16, flagsFrag: u16, frag: Option<FragmentHeader>)
    ensures FromParser(ParsedIpv4(src, dst, protocol, identification, flagsFrag))
    ensures FromParser(ParsedIpv6(src, dst, protocol, frag))
  {
  }
}
