/** Requests, responses and hellos split over segments come out whole, on the segment that completes them. */
module TcpRecovery {
  import opened Wrappers
  import opened Words
  import opened Apps
  import opened Framing
  import opened TcpReassembly
  import opened TcpRuns
  import opened TcpSplit

  /** The gap-free part of what arrived reached `end` with the last slice, and not before. */
  ghost predicate ReachesFirst(d: Sender, slices: seq<Slice>, end: nat)
    requires InText(d, slices) && slices != []
  {
    Contiguously(d, slices[..|slices| - 1]) < end <= Contiguously(d, slices)
  }

  lemma {:induction false} FoundAt(d: Sender, slices: seq<Slice>)
    requires InText(d, slices)
    ensures Contiguously(d, slices) <= |d.text| && Found(d, slices) == Decode(d, Contiguously(d, slices))
  {
    PrefixIsText(d, slices);
  }

  /**
   A split HTTP head is recovered: whatever the cuts and the order, as long as the arrived bytes never fall into too many
   runs, it comes out on the slice with which everything up to its blank line is there, and on no other.
   */
  lemma {:induction false} SplitHttpRecovered(d: Sender, ps: seq<Segment>, slices: seq<Slice>, end: nat)
    requires Transmission(d, ps, slices) && InText(d, slices) && NeverCrowded(d, slices) && slices != []
    requires WholeHttp(d.text, end, d.wellFormed)
    ensures |ps| == |slices| + 1 && end <= |d.text|
    ensures RunOf(ps, d.wellFormed).outs[|slices|] ==
            if ReachesFirst(d, slices, end) then Some(Http(HttpMessage(d.text[..end - 2], true))) else None
  {
    NothingLost(d, ps, slices);
    var before := slices[..|slices| - 1];
    FoundAt(d, slices);
    FoundAt(d, before);
    HttpPrefixes(d.ports, d.text, end, d.wellFormed, Contiguously(d, slices));
    HttpPrefixes(d.ports, d.text, end, d.wellFormed, Contiguously(d, before));
    BlankNeedsBytes(d.text, end);
    HttpPrefixes(d.ports, d.text, end, d.wellFormed, |d.text|);
    assert d.text[..|d.text|] == d.text;
    hide RunOf, Transmission, NeverCrowded, Contiguously, WholeHttp, Found, AppFromPayload, IsComplete;
  }

  /** A split hello is recovered in the same way, if its record fits the buffer. */
  lemma {:induction false} SplitHelloRecovered(d: Sender, ps: seq<Segment>, slices: seq<Slice>, version: u16, h: Hello, tail: seq<byte>)
    requires Transmission(d, ps, slices) && InText(d, slices) && NeverCrowded(d, slices) && slices != []
    requires Sendable(h) && d.text == Record(version, h) + tail
    ensures |ps| == |slices| + 1
    ensures RunOf(ps, d.wellFormed).outs[|slices|] ==
            if ReachesFirst(d, slices, |Record(version, h)|) then Some(Tls(TlsHello(version, Fixed(h) + h.extensions, true))) else None
  {
    NothingLost(d, ps, slices);
    var before := slices[..|slices| - 1];
    FoundAt(d, slices);
    FoundAt(d, before);
    hide Record, Fixed;
    HelloPrefixes(d.ports, version, h, tail, d.wellFormed, Contiguously(d, slices));
    HelloPrefixes(d.ports, version, h, tail, d.wellFormed, Contiguously(d, before));
    HelloPrefixes(d.ports, version, h, tail, d.wellFormed, |d.text|);
    assert d.text[..|d.text|] == d.text;
    hide RunOf, Transmission, NeverCrowded, Contiguously, Found, AppFromPayload, IsComplete;
  }
}
