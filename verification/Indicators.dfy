/** Threat-intelligence indicators: what a set holds, and what it matches. */
module Indicators {
  import opened Wrappers
  import opened Words
  import opened Net
  import opened Prefixes

  const MAX_INDICATORS: nat := 4_000_000

  datatype Provenance = Provenance(source: string, tag: Option<string>)

  datatype Cidr = Cidr(base: IpAddr, prefix: byte, text: string)

  /** An indicator as a match names it: an address, which is rendered from its value, or the text it is listed under. */
  datatype Named = Address(ip: IpAddr) | Text(text: string)

  datatype IocMatch = IocMatch(indicator: Named, source: string, tag: Option<string>)

  datatype IocKind = Ip | Range | Domain | Ja3

  datatype IocError = Unrecognised | Full

  /** What a set holds. */
  datatype Holdings = Holdings(
    ips: map<IpAddr, Provenance>, cidrs: seq<(Cidr, Provenance)>, domains: map<string, Provenance>, ja3: map<string, Provenance>
  )

  const NOTHING: Holdings := Holdings(map[], [], map[], map[])

  function Len(h: Holdings): nat {
    |h.ips| + |h.cidrs| + |h.domains| + |h.ja3|
  }

  function Matched(p: Provenance, indicator: Named): IocMatch {
    IocMatch(indicator, p.source, p.tag)
  }

  // ---------------------------------------------------------------------------------------------------------------
  // Addresses
  // ---------------------------------------------------------------------------------------------------------------

  /** The prefix lies within its address. */
  predicate InWidth(c: Cidr) {
    c.prefix <= Width(c.base)
  }

  ghost predicate AllInWidth(cidrs: seq<(Cidr, Provenance)>) {
    forall i :: 0 <= i < |cidrs| ==> InWidth(cidrs[i].0)
  }

  /** `Cidr::contains`. */
  predicate Contains(c: Cidr, ip: IpAddr)
    requires InWidth(c)
  {
    c.base.V4? == ip.V4? && PrefixEq(OctetsOf(c.base), OctetsOf(ip), c.prefix)
  }

  function FirstRange(cidrs: seq<(Cidr, Provenance)>, ip: IpAddr): Option<IocMatch>
    requires AllInWidth(cidrs)
  {
    if cidrs == [] then None
    else if Contains(cidrs[0].0, ip) then Some(Matched(cidrs[0].1, Text(cidrs[0].0.text)))
    else FirstRange(cidrs[1..], ip)
  }

  /** `match_ip`. */
  function MatchIp(h: Holdings, ip: IpAddr): Option<IocMatch>
    requires AllInWidth(h.cidrs)
  {
    if ip in h.ips then Some(Matched(h.ips[ip], Address(ip))) else FirstRange(h.cidrs, ip)
  }

  // ---------------------------------------------------------------------------------------------------------------
  // Names
  // ---------------------------------------------------------------------------------------------------------------

  function LowerChar(c: char): char {
    if 'A' <= c <= 'Z' then c - 'A' + 'a' else c
  }

  /** `to_ascii_lowercase`. */
  function Lower(s: string): (t: string)
    ensures |t| == |s|
  {
    seq(|s|, i requires 0 <= i < |s| => LowerChar(s[i]))
  }

  /** `trim_end_matches('.')`. */
  function TrimDots(s: string): string {
    if s != [] && s[|s| - 1] == '.' then TrimDots(s[..|s| - 1]) else s
  }

  function Canonical(name: string): string {
    Lower(TrimDots(name))
  }

  /** Where the first dot is, or the length. */
  function FirstDot(s: string): (i: nat)
    ensures i <= |s| && '.' !in s[..i] && (i < |s| ==> s[i] == '.')
  {
    if s == [] || s[0] == '.' then 0 else 1 + FirstDot(s[1..])
  }

  /** The walk from a name over its parents. */
  function Walk(domains: map<string, Provenance>, hay: string): (r: Option<string>)
    ensures r.Some? ==> r.value in domains
    decreases |hay|
  {
    if hay in domains then Some(hay)
    else
      var dot := FirstDot(hay);
      if dot == |hay| then None else Walk(domains, hay[dot + 1..])
  }

  /** `match_domain`. */
  function MatchDomain(h: Holdings, name: string): Option<IocMatch> {
    var hay := Canonical(name);
    if h.domains == map[] || hay == [] then None
    else
      var found := Walk(h.domains, hay);
      if found.None? then None
      else Some(Matched(h.domains[found.value], Text(found.value)))
  }

  /** `match_ja3`. */
  function MatchJa3(h: Holdings, hash: string): Option<IocMatch> {
    if Lower(hash) in h.ja3 then Some(Matched(h.ja3[Lower(hash)], Text(Lower(hash)))) else None
  }

  // ---------------------------------------------------------------------------------------------------------------
  // Insertion
  // ---------------------------------------------------------------------------------------------------------------

  /** A token, and what the library's parsers make of it: the address it is, and the parts around its first slash. */
  datatype Token = Token(text: string, address: Option<IpAddr>, network: Option<IpAddr>, bits: Option<byte>)

  /** `parse_cidr`. */
  function ParseCidr(t: Token): (r: Option<Cidr>)
    ensures r.Some? ==> InWidth(r.value)
  {
    if t.network.None? || t.bits.None? then None
    else if t.bits.value > Width(t.network.value) then None
    else Some(Cidr(t.network.value, t.bits.value, t.text))
  }

  predicate HexDigit(c: char) {
    '0' <= c <= '9' || 'a' <= c <= 'f' || 'A' <= c <= 'F'
  }

  /** `is_ja3`. */
  predicate IsJa3(text: string) {
    |text| == 32 && forall i :: 0 <= i < |text| ==> HexDigit(text[i])
  }

  predicate HostChar(c: char) {
    'a' <= c <= 'z' || 'A' <= c <= 'Z' || '0' <= c <= '9' || c == '-' || c == '.'
  }

  /** `normalise_domain`. */
  function NormaliseDomain(text: string): Option<string> {
    var d := Canonical(text);
    if d == [] || '.' !in d then None
    else if exists i :: 0 <= i < |d| && !HostChar(d[i]) then None
    else Some(d)
  }

  /** What a token is, tried in order. */
  datatype Class = IsRange(cidr: Cidr) | IsIp(ip: IpAddr) | IsJa3Hash(hash: string) | IsDomain(domain: string) | IsNothing

  function Classify(t: Token): (c: Class)
    ensures c.IsRange? ==> InWidth(c.cidr)
  {
    if '/' in t.text then (if ParseCidr(t).Some? then IsRange(ParseCidr(t).value) else IsNothing)
    else if t.address.Some? then IsIp(t.address.value)
    else if IsJa3(t.text) then IsJa3Hash(Lower(t.text))
    else if NormaliseDomain(t.text).Some? then IsDomain(NormaliseDomain(t.text).value)
    else IsNothing
  }

  function Add(h: Holdings, c: Class, p: Provenance): Holdings {
    match c
    case IsRange(cidr) => h.(cidrs := h.cidrs + [(cidr, p)])
    case IsIp(ip) => h.(ips := h.ips[ip := p])
    case IsJa3Hash(hash) => h.(ja3 := h.ja3[hash := p])
    case IsDomain(domain) => h.(domains := h.domains[domain := p])
    case IsNothing => h
  }

  function KindOf(c: Class): Result<IocKind, IocError> {
    match c
    case IsRange(_) => Ok(Range)
    case IsIp(_) => Ok(Ip)
    case IsJa3Hash(_) => Ok(Ja3)
    case IsDomain(_) => Ok(Domain)
    case IsNothing => Err(Unrecognised)
  }

  /** `insert_tagged`. */
  function Insert(h: Holdings, t: Token, p: Provenance): (Holdings, Result<IocKind, IocError>) {
    if Len(h) >= MAX_INDICATORS then (h, Err(Full)) else (Add(h, Classify(t), p), KindOf(Classify(t)))
  }

  /** `extend`: on a collision the incoming provenance wins, and incoming ranges go last. */
  function Merge(h: Holdings, other: Holdings): Holdings {
    Holdings(h.ips + other.ips, h.cidrs + other.cidrs, h.domains + other.domains, h.ja3 + other.ja3)
  }

  // ---------------------------------------------------------------------------------------------------------------
  // The set
  // ---------------------------------------------------------------------------------------------------------------

  datatype SourceInfo = SourceInfo(source: string, fetchedAt: Option<string>, indicators: nat)

  class IocSet {
    var ips: map<IpAddr, Provenance>
    var cidrs: seq<(Cidr, Provenance)>
    var domains: map<string, Provenance>
    var ja3: map<string, Provenance>
    var currentSource: string
    var manifest: seq<SourceInfo>

    ghost function View(): Holdings
      reads this
    {
      Holdings(ips, cidrs, domains, ja3)
    }

    ghost predicate Valid()
      reads this
    {
      AllInWidth(cidrs)
    }

    constructor ()
      ensures Valid() && View() == NOTHING && currentSource == "manual" && manifest == []
    {
      ips, cidrs, domains, ja3 := map[], [], map[], map[];
      currentSource, manifest := "manual", [];
    }

    method SetSource(source: string)
      modifies `currentSource
      ensures currentSource == source
    {
      currentSource := source;
    }

    method InsertTagged(t: Token, tag: Option<string>) returns (r: Result<IocKind, IocError>)
      requires Valid()
      modifies `ips, `cidrs, `domains, `ja3
      ensures Valid() && (View(), r) == Insert(old(View()), t, Provenance(currentSource, tag))
    {
      if |ips| + |cidrs| + |domains| + |ja3| >= MAX_INDICATORS {
        return Err(Full);
      }
      var meta := Provenance(currentSource, tag);
      if '/' in t.text {
        var cidr := ParseCidr(t);
        if cidr.None? {
          return Err(Unrecognised);
        }
        cidrs := cidrs + [(cidr.value, meta)];
        return Ok(Range);
      }
      if t.address.Some? {
        ips := ips[t.address.value := meta];
        return Ok(Ip);
      }
      if IsJa3(t.text) {
        ja3 := ja3[Lower(t.text) := meta];
        return Ok(Ja3);
      }
      var domain := NormaliseDomain(t.text);
      if domain.Some? {
        domains := domains[domain.value := meta];
        return Ok(Domain);
      }
      return Err(Unrecognised);
    }

    method Extend(other: IocSet)
      requires Valid() && other.Valid() && other != this
      modifies this
      ensures Valid() && View() == Merge(old(View()), other.View())
      ensures manifest == old(manifest) + other.manifest && currentSource == old(currentSource)
    {
      ips := ips + other.ips;
      cidrs := cidrs + other.cidrs;
      domains := domains + other.domains;
      ja3 := ja3 + other.ja3;
      manifest := manifest + other.manifest;
    }

    method FindIp(ip: IpAddr) returns (r: Option<IocMatch>)
      requires Valid()
      ensures r == MatchIp(View(), ip)
    {
      if ip in ips {
        return Some(Matched(ips[ip], Address(ip)));
      }
      var i := 0;
      while i < |cidrs|
        invariant i <= |cidrs| && FirstRange(cidrs[i..], ip) == FirstRange(cidrs, ip)
      {
        if Contains(cidrs[i].0, ip) {
          return Some(Matched(cidrs[i].1, Text(cidrs[i].0.text)));
        }
        assert cidrs[i..][1..] == cidrs[i + 1..];
        i := i + 1;
      }
      return None;
    }

    method FindDomain(name: string) returns (r: Option<IocMatch>)
      ensures r == MatchDomain(View(), name)
    {
      if domains == map[] {
        return None;
      }
      var hay := Canonical(name);
      if hay == [] {
        return None;
      }
      while true
        invariant Walk(domains, hay) == Walk(domains, Canonical(name))
        decreases |hay|
      {
        if hay in domains {
          return Some(Matched(domains[hay], Text(hay)));
        }
        var dot := FirstDot(hay);
        if dot == |hay| {
          return None;
        }
        hay := hay[dot + 1..];
      }
    }
  }
}
