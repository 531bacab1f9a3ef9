/** On the DNS ports the way a text is split shows. */
module TcpDnsSplit {
  import opened Wrappers
  import opened Words
  import opened Ranges
  import opened Net
  import opened FlowKeys
  import opened Apps
  import DnsMessages
  import opened TcpReassembly
  import opened TcpRuns
  import opened TcpSplit

  /** Slices that fill exactly the first `n` positions make one run of that length. */
  lemma {:induction false} OneGatheredRun(d: Sender, slices: seq<Slice>, n: nat)
    requires InText(d, slices) && n > 0 && forall x :: x in Gathered(d, slices).Keys <==> 0 <= x < n
    ensures Contiguously(d, slices) == n && !Crowded(d, slices)
  {
    var keys := Gathered(d, slices).Keys;
    hide Gathered;
    PrefixUnique(keys, Contiguously(d, slices), n);
    forall x ensures x in RunStarts(keys) <==> x == 0 {
      assert HasPredecessor(keys, x) <==> x - 1 in keys;
    }
    assert RunStarts(keys) == {0};
  }

  /** A length, twelve bytes, and one more. */
  function PrefixedText(): (text: seq<byte>)
    ensures |text| == 15 && text[1] == 12 && forall i :: 0 <= i < 15 && i != 1 ==> text[i] == 0
  {
    [0, 12] + seq(13, _ => 0)
  }

  function SplitSlices(): seq<Slice> {
    [Slice(0, 3), Slice(3, 11)]
  }

  /** A SYN and those two slices. */
  function SplitSegments(ports: Ports): seq<Segment> {
    var src, dst, text := Endpoint(V4(1), ports.src), Endpoint(V4(2), ports.dst), PrefixedText();
    [Segment(src, dst, 0, false, false, true, [], NoApp),
     Segment(src, dst, 1, false, false, false, text[0..3], NoApp),
     Segment(src, dst, 4, false, false, false, text[3..14], NoApp)]
  }

  /** Fewer than twelve bytes of this text are no message by themselves. */
  lemma ShortIsIncomplete(ports: Ports, p: seq<byte>, wellFormed: seq<byte> -> bool)
    requires |p| < 12 && (p != [] ==> p[0] == 0)
    ensures AppFromPayload(ports, p, true, wellFormed) == NoApp
  {
    NoStartIsNotHttp(p, wellFormed);
    hide HttpParse;
  }

  lemma SplitIsSent(ports: Ports, wellFormed: seq<byte> -> bool)
    ensures var d := Sender(PrefixedText(), 1, ports, wellFormed);
            Sent(d, SplitSegments(ports), SplitSlices()) && InText(d, SplitSlices())
  {
    hide AppFromPayload, PrefixedText;
    var text := PrefixedText();
    ShortIsIncomplete(ports, text[0..3], wellFormed);
    ShortIsIncomplete(ports, text[3..14], wellFormed);
  }

  lemma {:induction false} SplitIsGathered(d: Sender)
    requires d.text == PrefixedText()
    ensures var slices := SplitSlices();
            && slices[..1] == [Slice(0, 3)] && InText(d, slices) && InText(d, slices[..1])
            && |Arrived(d, slices)| == 2 && |Arrived(d, slices[..1])| == 1
            && (forall x :: x in Gathered(d, slices).Keys <==> 0 <= x < 14)
            && (forall x :: x in Gathered(d, slices[..1]).Keys <==> 0 <= x < 3)
  {
    hide Gathered, PrefixedText;
    var first, second := Slice(0, 3), Slice(3, 11);
    assert SplitSlices() == [first] + [second] && [] + [first] == [first];
    GatheredSnoc(d, [], first);
    GatheredSnoc(d, [first], second);
    hide Arrived;
    EmptyGathered(d);
    forall x ensures x in Gathered(d, [first]).Keys <==> 0 <= x < 3 {
      GatheredKeys(d, [], first, x);
    }
    forall x ensures x in Gathered(d, [first] + [second]).Keys <==> 0 <= x < 14 {
      GatheredKeys(d, [first], second, x);
    }
  }

  lemma EmptyGathered(d: Sender)
    ensures Gathered(d, []).Keys == {}
  {
    EmptyWindow(0);
  }

  /**
   The ports matter. On a DNS port this transmission, in order and without a gap, brings out a message that is not what
   the whole text decodes to.
   */
  lemma {:induction false} DnsSplitShows(ports: Ports, wellFormed: seq<byte> -> bool)
    requires DnsPorts(ports)
    ensures var d := Sender(PrefixedText(), 1, ports, wellFormed);
            && Sent(d, SplitSegments(ports), SplitSlices())
            && var out := RunOf(SplitSegments(ports), wellFormed).outs[2];
               out.Some? && out.value != AppFromPayload(ports, d.text, true, wellFormed)
  {
    hide RunOf, Sent, PrefixedText, SplitSegments, Arrived, Gathered, Contiguously, AppFromPayload;
    var d, slices := Sender(PrefixedText(), 1, ports, wellFormed), SplitSlices();
    SplitIsSent(ports, wellFormed);
    SplitIsGathered(d);
    OneGatheredRun(d, slices, 14);
    OneGatheredRun(d, slices[..1], 3);
    NothingArrived(d);
    assert slices[..1][..0] == [];
    PrefixedDecodes(ports, wellFormed);
    SplitInvariance(d, SplitSegments(ports), slices);
  }

  /** Fourteen bytes of the text are a framed message; all fifteen are a bare one. */
  lemma PrefixedDecodes(ports: Ports, wellFormed: seq<byte> -> bool)
    requires DnsPorts(ports)
    ensures var text := PrefixedText();
            && IsComplete(AppFromPayload(ports, text[..14], true, wellFormed))
            && AppFromPayload(ports, text[..14], true, wellFormed) != AppFromPayload(ports, text, true, wellFormed)
  {
    hide PrefixedText, DnsMessages.Parse;
    var text := PrefixedText();
    EmptyMessage(text[..14][2..]);
    EmptyMessage(text);
    assert DnsFrom(text[..14], true) == Some(DnsMessages.Parse(text[..14][2..]).value);
    assert DnsFrom(text, true) == Some(DnsMessages.Parse(text).value);
  }

  /** Whatever comes out of a transmission is what the whole text decodes to. */
  ghost predicate BringsWholeText(d: Sender, ps: seq<Segment>, slices: seq<Slice>) {
    Sent(d, ps, slices) && InText(d, slices) ==>
      forall n :: 0 <= n < |ps| && RunOf(ps, d.wellFormed).outs[n].Some? ==>
                    RunOf(ps, d.wellFormed).outs[n] == Some(AppFromPayload(d.ports, d.text, true, d.wellFormed))
  }

  lemma {:induction false} OffDnsWholeText(d: Sender, ps: seq<Segment>, slices: seq<Slice>)
    requires !DnsPorts(d.ports)
    ensures BringsWholeText(d, ps, slices)
  {
    hide RunOf, AppFromPayload, DnsPorts, Sent, InText, OutsExpected, Closed, HasGathered;
    if Sent(d, ps, slices) && InText(d, slices) {
      SplitInvariance(d, ps, slices);
      var outs := RunOf(ps, d.wellFormed).outs;
      NothingOnTheSyn(outs, d, slices);
      forall n | 0 <= n < |ps| && outs[n].Some? ensures outs[n] == Some(AppFromPayload(d.ports, d.text, true, d.wellFormed)) {
        RecoveredAtMostOnce(outs, d, slices, 0, n);
      }
    }
  }

  lemma {:induction false} NothingOnTheSyn(outs: seq<Option<AppLayer>>, d: Sender, slices: seq<Slice>)
    requires InText(d, slices) && OutsExpected(outs, d, slices)
    ensures outs != [] && outs[0].None?
    decreases |slices|
  {
    hide Expected;
    if slices != [] {
      NothingOnTheSyn(outs[..|slices|], d, slices[..|slices| - 1]);
    }
  }

  /** Every transmission, however split, brings out only the whole text's message exactly off the DNS ports. */
  lemma SplitHiddenExactlyOffDns(ports: Ports, wellFormed: seq<byte> -> bool)
    ensures (forall text: seq<byte>, base: u32, ps, slices :: BringsWholeText(Sender(text, base, ports, wellFormed), ps, slices))
            <==> !DnsPorts(ports)
  {
    hide RunOf, Sent, AppFromPayload, PrefixedText, SplitSlices, InText;
    if DnsPorts(ports) {
      DnsSplitShows(ports, wellFormed);
      SplitIsSent(ports, wellFormed);
      assert !BringsWholeText(Sender(PrefixedText(), 1, ports, wellFormed), SplitSegments(ports), SplitSlices());
    } else {
      forall text: seq<byte>, base: u32, ps, slices ensures BringsWholeText(Sender(text, base, ports, wellFormed), ps, slices) {
        OffDnsWholeText(Sender(text, base, ports, wellFormed), ps, slices);
      }
    }
  }
}
