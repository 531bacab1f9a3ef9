/** A message split over segments in any way is recovered as the unsplit message, or not at all. */
module TcpSplit {
  import opened Wrappers
  import opened Words
  import opened Ranges
  import opened HeadBuffer
  import opened Apps
  import opened TcpReassembly
  import opened TcpRuns

  /** Bytes `off..off + len` of the sender's stream. */
  datatype Slice = Slice(off: nat, len: nat)

  /** The sender's byte stream, the sequence number it starts at, and the ports it runs between. */
  datatype Sender = Sender(text: seq<byte>, base: u32, ports: Ports, wellFormed: seq<byte> -> bool)

  /** `p` carries `sl`, closes nothing, and its own payload does not decode to a complete message. */
  ghost predicate Carries(d: Sender, p: Segment, sl: Slice) {
    && sl.len > 0 && sl.off + sl.len <= |d.text|
    && p.payload == d.text[sl.off..sl.off + sl.len]
    && p.seqNo == WrapAdd(d.base, Wrap32(sl.off))
    && PortsOf(p) == d.ports && !p.fin && !p.rst && !p.syn
    && p.app == AppFromPayload(d.ports, p.payload, true, d.wellFormed) && !IsComplete(p.app)
  }

  ghost predicate Opens(d: Sender, p: Segment) {
    p.syn && !Closes(p) && d.base == WrapAdd(p.seqNo, 1)
  }

  /** A SYN, then slices of the text in any order, overlapping and repeated as they like. */
  ghost predicate Sent(d: Sender, ps: seq<Segment>, slices: seq<Slice>) {
    && |d.text| <= TWO32
    && |ps| == |slices| + 1 && Opens(d, ps[0])
    && forall n :: 0 <= n < |slices| ==> Carries(d, ps[n + 1], slices[n])
  }

  /** The same between ports on which the decoders do not look for DNS. */
  ghost predicate Transmission(d: Sender, ps: seq<Segment>, slices: seq<Slice>) {
    Sent(d, ps, slices) && !DnsPorts(d.ports)
  }

  // ---------------------------------------------------------------------------------------------------------------
  // What has arrived
  // ---------------------------------------------------------------------------------------------------------------

  ghost predicate InText(d: Sender, slices: seq<Slice>) {
    forall n :: 0 <= n < |slices| ==> slices[n].len > 0 && slices[n].off + slices[n].len <= |d.text|
  }

  /** The slices that start inside the window, as writes at their own offsets. */
  ghost function Arrived(d: Sender, slices: seq<Slice>): seq<Chunk>
    requires InText(d, slices)
  {
    if slices == [] then []
    else
      var n := |slices| - 1;
      var sl := slices[n];
      if sl.off < MAX_STREAM_BYTES then Arrived(d, slices[..n]) + [Chunk(sl.off, d.text[sl.off..sl.off + sl.len])]
      else Arrived(d, slices[..n])
  }

  ghost function Gathered(d: Sender, slices: seq<Slice>): map<int, byte>
    requires InText(d, slices)
  {
    Window(FirstWriter(Arrived(d, slices)), 0, MAX_STREAM_BYTES)
  }

  lemma GatheredWellFormed(d: Sender, slices: seq<Slice>)
    requires InText(d, slices)
    ensures WellFormed(Head(MAX_STREAM_BYTES, Gathered(d, slices)))
  {
    hide FirstWriter, Arrived;
  }

  /** How much of the text has arrived without a gap, up to the size of the buffer. */
  ghost function Contiguously(d: Sender, slices: seq<Slice>): (n: nat)
    requires InText(d, slices)
    ensures n <= MAX_STREAM_BYTES && IsPrefix(Gathered(d, slices).Keys, n)
  {
    GatheredWellFormed(d, slices);
    RunLength(Head(MAX_STREAM_BYTES, Gathered(d, slices)))
  }

  /** The arrived bytes fall into more separate runs than a stream may hold. */
  ghost predicate Crowded(d: Sender, slices: seq<Slice>)
    requires InText(d, slices)
  {
    |RunStarts(Gathered(d, slices).Keys)| > 16
  }

  ghost predicate OfText(m: map<int, byte>, d: Sender) {
    forall x :: x in m ==> 0 <= x < |d.text| && m[x] == d.text[x]
  }

  lemma MergeOfText(m: map<int, byte>, d: Sender, off: nat, len: nat)
    requires OfText(m, d) && off + len <= |d.text|
    ensures OfText(Merge(m, Chunk(off, d.text[off..off + len])), d)
  {
  }

  /** Every byte that arrived is the text's own. */
  lemma {:induction false} ArrivedOfText(d: Sender, slices: seq<Slice>)
    requires InText(d, slices)
    ensures OfText(FirstWriter(Arrived(d, slices)), d)
    decreases |slices|
  {
    hide FirstWriter, Merge, OfText;
    if slices == [] {
      NothingOfText(d);
    } else {
      var n := |slices| - 1;
      ArrivedOfText(d, slices[..n]);
      OneMoreOfText(Arrived(d, slices[..n]), d, slices[n]);
    }
  }

  lemma NothingOfText(d: Sender)
    ensures OfText(FirstWriter([]), d)
  {
  }

  lemma OneMoreOfText(log: seq<Chunk>, d: Sender, sl: Slice)
    requires OfText(FirstWriter(log), d) && sl.off + sl.len <= |d.text|
    ensures OfText(FirstWriter(log + [Chunk(sl.off, d.text[sl.off..sl.off + sl.len])]), d)
  {
    hide FirstWriter, Merge, OfText;
    FirstWriterSnoc(log, Chunk(sl.off, d.text[sl.off..sl.off + sl.len]));
    MergeOfText(FirstWriter(log), d, sl.off, sl.len);
  }

  lemma {:induction false} GatheredIsText(d: Sender, slices: seq<Slice>)
    requires InText(d, slices)
    ensures OfText(Gathered(d, slices), d)
  {
    ArrivedOfText(d, slices);
    hide FirstWriter, Arrived;
    var m := FirstWriter(Arrived(d, slices));
    assert forall x :: Within(m, 0, x) <==> x in m;
  }

  lemma {:induction false} PrefixIsText(d: Sender, slices: seq<Slice>)
    requires InText(d, slices)
    ensures Contiguously(d, slices) <= |d.text|
    ensures forall x :: 0 <= x < Contiguously(d, slices) ==> x in Gathered(d, slices)
  {
    GatheredIsText(d, slices);
    hide Gathered;
    var n := Contiguously(d, slices);
    assert n > 0 ==> n - 1 in Gathered(d, slices).Keys;
  }

  ghost function Decode(d: Sender, n: nat): AppLayer
    requires n <= |d.text|
  {
    AppFromPayload(d.ports, d.text[..n], true, d.wellFormed)
  }

  /** What the gap-free part of what arrived decodes to. */
  ghost function Found(d: Sender, slices: seq<Slice>): AppLayer
    requires InText(d, slices)
  {
    PrefixIsText(d, slices);
    Decode(d, Contiguously(d, slices))
  }

  /** The gap-free part of what arrived already holds a complete message. */
  ghost predicate Recoverable(d: Sender, slices: seq<Slice>)
    requires InText(d, slices)
  {
    IsComplete(Found(d, slices))
  }

  /** A longer prefix of the text decodes to the same complete message. */
  lemma LongerPrefix(d: Sender, m: nat, n: nat)
    requires m <= n <= |d.text| && !DnsPorts(d.ports) && IsComplete(Decode(d, m))
    ensures Decode(d, n) == Decode(d, m)
  {
    assert d.text[..n] == d.text[..m] + d.text[m..n];
    CompleteIsStable(d.ports, d.text[..m], d.text[m..n], d.wellFormed);
  }

  lemma WholeText(d: Sender, m: nat)
    requires m <= |d.text| && !DnsPorts(d.ports) && IsComplete(Decode(d, m))
    ensures Decode(d, m) == AppFromPayload(d.ports, d.text, true, d.wellFormed)
  {
    LongerPrefix(d, m, |d.text|);
    assert d.text[..|d.text|] == d.text;
  }

  lemma {:induction false} GatheredGrows(d: Sender, slices: seq<Slice>)
    requires InText(d, slices) && slices != []
    ensures Contiguously(d, slices[..|slices| - 1]) <= Contiguously(d, slices)
  {
    var n := |slices| - 1;
    var before := Arrived(d, slices[..n]);
    var sl := slices[n];
    if sl.off < MAX_STREAM_BYTES {
      FirstWriterSnoc(before, Chunk(sl.off, d.text[sl.off..sl.off + sl.len]));
    }
    forall x | x in Gathered(d, slices[..n]) ensures x in Gathered(d, slices) {
      assert Within(FirstWriter(before), 0, x) && 0 + x == x;
      assert Within(FirstWriter(Arrived(d, slices)), 0, x);
    }
    assert Contiguously(d, slices) !in Gathered(d, slices[..n]).Keys;
  }

  // ---------------------------------------------------------------------------------------------------------------
  // One slice at a time
  // ---------------------------------------------------------------------------------------------------------------

  /** An anchored stream holds exactly what has arrived, and counts the slices it took. */
  ghost predicate HasGathered(s: State, d: Sender, slices: seq<Slice>)
    requires InText(d, slices)
  {
    && s.base == d.base && s.synBased
    && s.head.held == Gathered(d, slices) && s.segments == |Arrived(d, slices)|
  }

  lemma OffsetIsSlice(s: State, d: Sender, off: nat)
    requires s.base == d.base && s.synBased && off < TWO32
    ensures Offset(s, WrapAdd(d.base, Wrap32(off))) == off && Seated(s, WrapAdd(d.base, Wrap32(off))) == s
  {
  }

  lemma {:induction false} PlacedGathers(s: State, d: Sender, slices: seq<Slice>, p: Segment, sl: Slice)
    requires InText(d, slices) && Carries(d, p, sl) && |d.text| <= TWO32
    requires HasGathered(s, d, slices) && !s.done
    ensures Offset(s, p.seqNo) == sl.off && Seated(s, p.seqNo) == s && InText(d, slices + [sl])
    ensures sl.off < MAX_STREAM_BYTES ==> HasGathered(Placed(s, p.seqNo, p.payload), d, slices + [sl])
    ensures sl.off >= MAX_STREAM_BYTES ==> HasGathered(s, d, slices + [sl])
  {
    hide FirstWriter, WriteTo, WrapSub, WrapAdd, Wrap32, Seated, Offset, Gathered, Arrived, InText, AppFromPayload, IsComplete;
    OffsetIsSlice(s, d, sl.off);
    GatheredSnoc(d, slices, sl);
    if sl.off < MAX_STREAM_BYTES {
      GatheredWrite(s.head, d, slices, sl);
    }
  }

  ghost function ChunkOf(d: Sender, sl: Slice): Chunk
    requires sl.off + sl.len <= |d.text|
  {
    Chunk(sl.off, d.text[sl.off..sl.off + sl.len])
  }

  /** What a slice adds to what has arrived. */
  lemma {:induction false} GatheredSnoc(d: Sender, slices: seq<Slice>, sl: Slice)
    requires InText(d, slices) && sl.len > 0 && sl.off + sl.len <= |d.text|
    ensures InText(d, slices + [sl])
    ensures Arrived(d, slices + [sl])
            == if sl.off < MAX_STREAM_BYTES then Arrived(d, slices) + [ChunkOf(d, sl)] else Arrived(d, slices)
    ensures sl.off >= MAX_STREAM_BYTES ==> Gathered(d, slices + [sl]) == Gathered(d, slices)
  {
    hide FirstWriter, Window;
    assert (slices + [sl])[..|slices|] == slices;
  }

  lemma {:induction false} GatheredKeys(d: Sender, slices: seq<Slice>, sl: Slice, x: int)
    requires InText(d, slices) && sl.len > 0 && sl.off + sl.len <= |d.text| && sl.off < MAX_STREAM_BYTES
    ensures InText(d, slices + [sl])
    ensures x in Gathered(d, slices + [sl]).Keys
            <==> x in Gathered(d, slices).Keys || (sl.off <= x < sl.off + sl.len && x < MAX_STREAM_BYTES)
  {
    hide FirstWriter, Merge, Window, Arrived, InText;
    GatheredSnoc(d, slices, sl);
    FirstWriterSnoc(Arrived(d, slices), ChunkOf(d, sl));
    MergeAt(FirstWriter(Arrived(d, slices)), ChunkOf(d, sl), x);
    WindowAt(FirstWriter(Arrived(d, slices)), 0, MAX_STREAM_BYTES, x);
    WindowAt(FirstWriter(Arrived(d, slices + [sl])), 0, MAX_STREAM_BYTES, x);
  }

  lemma {:induction false} GatheredWrite(h: Head, d: Sender, slices: seq<Slice>, sl: Slice)
    requires InText(d, slices) && InText(d, slices + [sl]) && sl.len > 0 && sl.off + sl.len <= |d.text| && sl.off < MAX_STREAM_BYTES
    requires h.held == Gathered(d, slices)
    ensures WriteTo(h, sl.off, d.text[sl.off..sl.off + sl.len], MAX_STREAM_BYTES).held == Gathered(d, slices + [sl])
  {
    hide Window, FirstWriter, WriteTo, Arrived, InText;
    var c, log := ChunkOf(d, sl), Arrived(d, slices);
    GatheredSnoc(d, slices, sl);
    WindowWrite(h, FirstWriter(log), c, 0, MAX_STREAM_BYTES);
    FirstWriterSnoc(log, c);
    assert c.at - 0 == sl.off;
  }

  /** What is decided about a stream that has gathered some slices, in terms of the slices alone. */
  lemma {:induction false} JudgedByGathered(s: State, d: Sender, slices: seq<Slice>)
    requires InText(d, slices) && WellFormed(s.head) && HasGathered(s, d, slices)
    ensures var (s', out) := Judged(s, d.ports, d.wellFormed);
            if Crowded(d, slices) then s' == Finished(s) && out == None
            else if |Arrived(d, slices)| < 2 || Contiguously(d, slices) == 0 then s' == s && out == None
            else if Recoverable(d, slices) then s' == Finished(s) && out == Some(Found(d, slices))
            else out == None && s' == if Contiguously(d, slices) >= MAX_STREAM_BYTES then Finished(s) else s
  {
    PrefixUnique(s.head.held.Keys, RunLength(s.head), Contiguously(d, slices));
    HeadIsText(s.head, d, slices);
    hide RunLength, Contiguously, AppFromPayload, Gathered, Arrived, IsComplete;
  }

  lemma {:induction false} HeadIsText(h: Head, d: Sender, slices: seq<Slice>)
    requires InText(d, slices) && WellFormed(h) && h.held == Gathered(d, slices)
    ensures Decoded(h, d.ports, d.wellFormed) == Found(d, slices)
  {
    PrefixUnique(h.held.Keys, RunLength(h), Contiguously(d, slices));
    PrefixIsText(d, slices);
    GatheredIsText(d, slices);
    hide Gathered, AppFromPayload, Contiguously, RunLength;
    assert Bytes(h, RunLength(h)) == d.text[..Contiguously(d, slices)];
  }

  /** With at most one slice taken nothing is recoverable, since no slice is complete by itself. */
  lemma {:induction false} OneSliceIsNotEnough(d: Sender, ps: seq<Segment>, slices: seq<Slice>)
    requires Transmission(d, ps, slices) && InText(d, slices) && |Arrived(d, slices)| < 2
    ensures !Recoverable(d, slices)
    decreases |slices|
  {
    hide AppFromPayload, Contiguously, IsComplete, Gathered, Arrived, DnsPorts;
    var c := Contiguously(d, slices);
    PrefixIsText(d, slices);
    if c == 0 {
      assert d.text[..0] == [];
      NothingIsIncomplete(d.ports, d.wellFormed);
    } else {
      var n := OneSliceCovers(d, slices);
      assert d.text[0..slices[n].len] == d.text[..slices[n].len];
      if IsComplete(Decode(d, c)) {
        LongerPrefix(d, c, slices[n].len);
      }
      assert Carries(d, ps[n + 1], slices[n]);
    }
  }

  lemma NothingIsIncomplete(ports: Ports, wellFormed: seq<byte> -> bool)
    ensures !IsComplete(AppFromPayload(ports, [], true, wellFormed))
  {
  }

  /** A gap-free part made by one slice lies inside a slice that starts at 0. */
  lemma {:induction false} OneSliceCovers(d: Sender, slices: seq<Slice>) returns (n: nat)
    requires InText(d, slices) && |Arrived(d, slices)| < 2 && Contiguously(d, slices) > 0
    ensures n < |slices| && slices[n].off == 0 && slices[n].len >= Contiguously(d, slices)
  {
    var c, log := Contiguously(d, slices), Arrived(d, slices);
    assert 0 in Gathered(d, slices).Keys && c - 1 in Gathered(d, slices).Keys;
    FirstWriterMeaning(log);
    hide FirstWriter, Contiguously, Arrived;
    assert Within(FirstWriter(log), 0, 0) && Within(FirstWriter(log), 0, c - 1);
    var k := ReachedHasFirst(log, 0);
    var l := ReachedHasFirst(log, c - 1);
    n := TakenFrom(d, slices, 0);
  }

  /** Every write that arrived was some slice. */
  lemma {:induction false} TakenFrom(d: Sender, slices: seq<Slice>, k: nat) returns (n: nat)
    requires InText(d, slices) && k < |Arrived(d, slices)|
    ensures n < |slices| && Arrived(d, slices)[k] == Chunk(slices[n].off, d.text[slices[n].off..slices[n].off + slices[n].len])
    ensures Arrived(d, slices)[k].at == slices[n].off && |Arrived(d, slices)[k].bytes| == slices[n].len
    decreases |slices|
  {
    var last := |slices| - 1;
    if k < |Arrived(d, slices[..last])| {
      n := TakenFrom(d, slices[..last], k);
    } else {
      n := last;
    }
  }

  // ---------------------------------------------------------------------------------------------------------------
  // The whole transmission
  // ---------------------------------------------------------------------------------------------------------------

  /** The stream is over: two slices taken, and a message found or the buffer full. */
  ghost predicate Over(d: Sender, slices: seq<Slice>)
    requires InText(d, slices)
  {
    |Arrived(d, slices)| >= 2 && (Recoverable(d, slices) || Contiguously(d, slices) >= MAX_STREAM_BYTES)
  }

  /** At some point of the transmission the stream was given up or over. */
  ghost predicate Closed(d: Sender, slices: seq<Slice>)
    requires InText(d, slices)
    decreases |slices|
  {
    Crowded(d, slices) || Over(d, slices) || (slices != [] && Closed(d, slices[..|slices| - 1]))
  }

  /** The message the last slice should bring out: what the gap-free part decodes to, when that first is complete. */
  ghost function Expected(d: Sender, slices: seq<Slice>): Option<AppLayer>
    requires InText(d, slices) && slices != []
  {
    if !Closed(d, slices[..|slices| - 1]) && !Crowded(d, slices) && Over(d, slices) && Recoverable(d, slices) then
      Some(Found(d, slices))
    else None
  }

  lemma {:induction false} RecoverableStays(d: Sender, slices: seq<Slice>)
    requires InText(d, slices) && slices != [] && !DnsPorts(d.ports)
    ensures Recoverable(d, slices[..|slices| - 1]) ==> Recoverable(d, slices)
    ensures Over(d, slices[..|slices| - 1]) ==> Over(d, slices)
    ensures Contiguously(d, slices[..|slices| - 1]) >= MAX_STREAM_BYTES ==>
              (Recoverable(d, slices) <==> Recoverable(d, slices[..|slices| - 1]))
  {
    hide Contiguously, Arrived, AppFromPayload, IsComplete;
    var before := slices[..|slices| - 1];
    GatheredGrows(d, slices);
    ArrivedGrows(d, slices);
    PrefixIsText(d, before);
    PrefixIsText(d, slices);
    if IsComplete(Decode(d, Contiguously(d, before))) {
      LongerPrefix(d, Contiguously(d, before), Contiguously(d, slices));
    }
  }

  lemma ArrivedGrows(d: Sender, slices: seq<Slice>)
    requires InText(d, slices) && slices != []
    ensures |Arrived(d, slices[..|slices| - 1])| <= |Arrived(d, slices)|
    ensures slices[|slices| - 1].off >= MAX_STREAM_BYTES ==>
              Arrived(d, slices) == Arrived(d, slices[..|slices| - 1]) && Gathered(d, slices) == Gathered(d, slices[..|slices| - 1])
  {
  }

  /** Off the DNS ports, what is found, once recoverable, is the whole text's message. */
  lemma {:induction false} FoundIsWhole(d: Sender, slices: seq<Slice>)
    requires InText(d, slices) && !DnsPorts(d.ports) && Recoverable(d, slices)
    ensures Found(d, slices) == AppFromPayload(d.ports, d.text, true, d.wellFormed)
  {
    hide AppFromPayload, IsComplete, Contiguously;
    PrefixIsText(d, slices);
    WholeText(d, Contiguously(d, slices));
  }

  lemma {:induction false} NothingFoundInNothing(d: Sender, slices: seq<Slice>)
    requires InText(d, slices) && Recoverable(d, slices)
    ensures Contiguously(d, slices) > 0
  {
    hide Contiguously;
    PrefixIsText(d, slices);
    NothingIsIncomplete(d.ports, d.wellFormed);
    assert d.text[..0] == [];
  }

  /** One slice at an open stream. */
  lemma {:induction false} SliceStep(s: State, d: Sender, slices: seq<Slice>, p: Segment, sl: Slice)
    requires InText(d, slices) && InText(d, slices + [sl]) && WellFormed(s.head) && !s.done && HasGathered(s, d, slices)
    requires Carries(d, p, sl) && |d.text| <= TWO32
    ensures var o, after := Feed(s, p.seqNo, p.payload, d.ports, d.wellFormed), slices + [sl];
            if sl.off >= MAX_STREAM_BYTES then o.state == s && o.emitted == None && HasGathered(s, d, after)
            else
              && (o.state.done <==> Crowded(d, after) || Over(d, after))
              && (!o.state.done ==> HasGathered(o.state, d, after))
              && o.emitted == (if !Crowded(d, after) && Over(d, after) && Recoverable(d, after) then Some(Found(d, after)) else None)
  {
    var after, placed := slices + [sl], Placed(s, p.seqNo, p.payload);
    PlacedGathers(s, d, slices, p, sl);
    FeedIsJudged(s, p.seqNo, p.payload, d.ports, d.wellFormed);
    hide Feed, Judged, Placed, Carries, Gathered, Arrived, Contiguously, Found, RunStarts, Seated, Offset;
    if sl.off < MAX_STREAM_BYTES {
      JudgedByGathered(placed, d, after);
      if Recoverable(d, after) {
        NothingFoundInNothing(d, after);
      }
    }
  }

  lemma FeedIsJudged(s: State, seqNo: u32, payload: seq<byte>, ports: Ports, wellFormed: seq<byte> -> bool)
    requires WellFormed(s.head) && !s.done
    ensures WellFormed(Placed(s, seqNo, payload).head)
    ensures var o, placed := Feed(s, seqNo, payload, ports, wellFormed), Placed(s, seqNo, payload);
            if Offset(s, seqNo) >= MAX_STREAM_BYTES then o.state == Seated(s, seqNo) && o.emitted == None
            else (o.state, o.emitted) == Judged(placed, ports, wellFormed)
  {
    hide Judged, Conflicts;
  }

  /**
   Split invariance. However the text is cut into slices, in whatever order they arrive, overlapping or repeated, the
   stream closes exactly when what arrived first is crowded, holds a complete message without a gap, or fills the
   buffer without one. Exactly in the second case a message comes out, on that slice, and it is what that part decodes
   to.
   */
  lemma {:induction false} SplitInvariance(d: Sender, ps: seq<Segment>, slices: seq<Slice>)
    requires Sent(d, ps, slices) && InText(d, slices)
    ensures RunOf(ps, d.wellFormed).stream.Some?
    ensures RunOf(ps, d.wellFormed).stream.value.done <==> Closed(d, slices)
    ensures !Closed(d, slices) ==> HasGathered(RunOf(ps, d.wellFormed).stream.value, d, slices)
    ensures OutsExpected(RunOf(ps, d.wellFormed).outs, d, slices)
    decreases |slices|
  {
    var n := |slices| - 1;
    if slices == [] {
      AfterSyn(d, ps);
    } else {
      OneFewer(d, ps, slices);
      SplitInvariance(d, ps[..n + 1], slices[..n]);
      var s := RunOf(ps[..n + 1], d.wellFormed).stream;
      var l := LifeStep(s, ps[n + 1], d.wellFormed);
      LastSlice(s.value, d, ps, slices, l);
      hide LifeStep, Expected, Closed, HasGathered, Sent, InText;
      assert RunOf(ps, d.wellFormed).outs == RunOf(ps[..n + 1], d.wellFormed).outs + [l.emitted];
    }
  }

  lemma OneFewer(d: Sender, ps: seq<Segment>, slices: seq<Slice>)
    requires Sent(d, ps, slices) && InText(d, slices) && slices != []
    ensures var n := |slices| - 1;
            Sent(d, ps[..n + 1], slices[..n]) && InText(d, slices[..n])
  {
  }

  /** Nothing on the SYN, and on each slice what is expected of it. */
  ghost predicate OutsExpected(outs: seq<Option<AppLayer>>, d: Sender, slices: seq<Slice>)
    requires InText(d, slices)
    decreases |slices|
  {
    if slices == [] then outs == [None]
    else
      var n := |slices| - 1;
      && |outs| == |slices| + 1 && outs[n + 1] == Expected(d, slices)
      && OutsExpected(outs[..n + 1], d, slices[..n])
  }

  /** At most one slice brings a message out, and off the DNS ports the message is the whole text's. */
  lemma {:induction false} RecoveredAtMostOnce(outs: seq<Option<AppLayer>>, d: Sender, slices: seq<Slice>, i: nat, j: nat)
    requires InText(d, slices) && OutsExpected(outs, d, slices)
    requires i < j < |outs| && outs[j].Some?
    ensures outs[i].None?
    ensures !DnsPorts(d.ports) ==> outs[j] == Some(AppFromPayload(d.ports, d.text, true, d.wellFormed))
    decreases |slices|
  {
    hide Recoverable, AppFromPayload, Crowded, Over, Closed, DnsPorts;
    var n := |slices| - 1;
    if j < n + 1 {
      RecoveredAtMostOnce(outs[..n + 1], d, slices[..n], i, j);
    } else {
      SilentWhileOpen(outs[..n + 1], d, slices[..n], i);
      if !DnsPorts(d.ports) {
        FoundIsWhole(d, slices);
      }
    }
  }

  lemma {:induction false} SilentWhileOpen(outs: seq<Option<AppLayer>>, d: Sender, slices: seq<Slice>, i: nat)
    requires InText(d, slices) && OutsExpected(outs, d, slices)
    requires !Closed(d, slices) && i < |outs|
    ensures outs[i].None?
    decreases |slices|
  {
    hide Recoverable, AppFromPayload, Crowded, Over;
    if slices != [] && i < |slices| {
      SilentWhileOpen(outs[..|slices|], d, slices[..|slices| - 1], i);
    }
  }

  /** Until the stream is over, the arrived bytes never fall into more runs than it may hold. */
  ghost predicate NeverCrowded(d: Sender, slices: seq<Slice>)
    requires InText(d, slices)
    decreases |slices|
  {
    if slices == [] then true
    else
      var before := slices[..|slices| - 1];
      NeverCrowded(d, before) && (Over(d, before) || !Crowded(d, slices))
  }

  /** Without crowding the stream closes exactly when it is over, and what is expected is never held back. */
  lemma {:induction false} NothingHeldBack(d: Sender, ps: seq<Segment>, slices: seq<Slice>)
    requires Transmission(d, ps, slices) && InText(d, slices) && NeverCrowded(d, slices)
    ensures Closed(d, slices) <==> Over(d, slices)
    ensures slices != [] ==>
              Expected(d, slices) == if Recoverable(d, slices) && !Recoverable(d, slices[..|slices| - 1]) then
                                       Some(AppFromPayload(d.ports, d.text, true, d.wellFormed))
                                     else None
    decreases |slices|
  {
    assert |ps| == |slices| + 1;
    hide Arrived, Contiguously, Gathered, Found, RunStarts, AppFromPayload, IsComplete, Crowded, Sent, DnsPorts;
    if slices == [] {
      NothingArrived(d);
    } else {
      var before := slices[..|slices| - 1];
      OneFewer(d, ps, slices);
      NothingHeldBack(d, ps[..|slices|], before);
      RecoverableStays(d, slices);
      if |Arrived(d, slices)| < 2 {
        OneSliceIsNotEnough(d, ps, slices);
      }
      if |Arrived(d, before)| < 2 {
        OneSliceIsNotEnough(d, ps[..|slices|], before);
      }
      if Recoverable(d, slices) {
        FoundIsWhole(d, slices);
      }
    }
  }

  /**
   Without crowding nothing is lost: off the DNS ports the stream closes exactly when it is over, and the whole text's
   message comes out of the run exactly on the slice that first makes the gap-free part complete.
   */
  lemma {:induction false} NothingLost(d: Sender, ps: seq<Segment>, slices: seq<Slice>)
    requires Transmission(d, ps, slices) && InText(d, slices) && NeverCrowded(d, slices)
    ensures RunOf(ps, d.wellFormed).stream.Some? && |ps| == |slices| + 1
    ensures RunOf(ps, d.wellFormed).stream.value.done <==> Over(d, slices)
    ensures slices != [] ==>
              RunOf(ps, d.wellFormed).outs[|slices|] ==
              if Recoverable(d, slices) && !Recoverable(d, slices[..|slices| - 1]) then
                Some(AppFromPayload(d.ports, d.text, true, d.wellFormed))
              else None
  {
    assert |ps| == |slices| + 1;
    hide RunOf, Closed, Over, Expected, Recoverable, AppFromPayload, Sent, NeverCrowded, DnsPorts;
    NothingHeldBack(d, ps, slices);
    SplitInvariance(d, ps, slices);
  }

  lemma NothingArrived(d: Sender)
    ensures !Crowded(d, []) && !Over(d, [])
  {
    EmptyWindow(0);
    assert RunStarts(Gathered(d, []).Keys) == {};
  }

  lemma AfterSyn(d: Sender, ps: seq<Segment>)
    requires Sent(d, ps, [])
    ensures RunOf(ps, d.wellFormed).outs == [None]
    ensures RunOf(ps, d.wellFormed).stream.Some? && !RunOf(ps, d.wellFormed).stream.value.done && !Closed(d, [])
    ensures HasGathered(RunOf(ps, d.wellFormed).stream.value, d, [])
  {
    EmptyWindow(0);
    assert RunStarts(Gathered(d, []).Keys) == {};
    assert ps[..0] == [] && RunOf([], d.wellFormed) == Run(None, [], []);
  }

  lemma {:induction false} LastSlice(s: State, d: Sender, ps: seq<Segment>, slices: seq<Slice>, l: Life)
    requires Sent(d, ps, slices) && InText(d, slices) && slices != []
    requires InText(d, slices[..|slices| - 1]) && WellFormed(s.head)
    requires s.done <==> Closed(d, slices[..|slices| - 1])
    requires !s.done ==> HasGathered(s, d, slices[..|slices| - 1])
    requires l == LifeStep(Some(s), ps[|slices|], d.wellFormed)
    ensures l.stream.Some? && (l.stream.value.done <==> Closed(d, slices))
    ensures !l.stream.value.done ==> HasGathered(l.stream.value, d, slices)
    ensures l.emitted == Expected(d, slices)
  {
    hide Arrived, Contiguously, Gathered, Found, RunStarts, Feed, HasGathered, AppFromPayload, IsComplete;
    var n := |slices| - 1;
    var p, sl, before := ps[n + 1], slices[n], slices[..n];
    assert Carries(d, p, sl) && slices == before + [sl];
    CarriedIsData(s, d, p, sl);
    hide Carries, LifeStep, Sent;
    if !s.done {
      SliceStep(s, d, before, p, sl);
      if sl.off >= MAX_STREAM_BYTES {
        ArrivedGrows(d, slices);
        SameWhenBeyond(d, slices);
      }
    }
  }

  /** A slice that starts beyond the window changes nothing. */
  lemma SameWhenBeyond(d: Sender, slices: seq<Slice>)
    requires InText(d, slices) && slices != [] && slices[|slices| - 1].off >= MAX_STREAM_BYTES
    ensures Contiguously(d, slices) == Contiguously(d, slices[..|slices| - 1])
    ensures Found(d, slices) == Found(d, slices[..|slices| - 1])
  {
    ArrivedGrows(d, slices);
    PrefixUnique(Gathered(d, slices).Keys, Contiguously(d, slices), Contiguously(d, slices[..|slices| - 1]));
  }

  lemma CarriedIsData(s: State, d: Sender, p: Segment, sl: Slice)
    requires Carries(d, p, sl) && WellFormed(s.head)
    ensures var l, o := LifeStep(Some(s), p, d.wellFormed), Feed(s, p.seqNo, p.payload, d.ports, d.wellFormed);
            l == Life(Some(o.state), o.emitted, o.conflict) && (s.done ==> o == Outcome(s, None, false))
  {
  }
}
