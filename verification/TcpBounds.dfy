/** What bounds the stream table after any run, and what its counters count. */
module TcpBounds {
  import opened Wrappers
  import opened Words
  import opened Net
  import opened HeadBuffer
  import opened FlowKeys
  import opened Apps
  import opened TcpReassembly
  import opened TcpRuns
  import opened TcpOrder
  import opened TcpTables
  import Ranges
  import Sums

  // ---------------------------------------------------------------------------------------------------------------
  // Bounds
  // ---------------------------------------------------------------------------------------------------------------

  ghost predicate Capped(s: State) {
    && s.head.len <= 16_384
    && RangeTotal(s.head) <= 16
    && (s.done ==> s.head == EMPTY)
  }

  ghost function DoneKeys(t: Table): set<Routed> {
    set k | k in t.streams && t.streams[k].done
  }

  ghost function Buffered(t: Table): nat {
    Sums.SumOver(map k | k in t.streams :: t.streams[k].head.len)
  }

  /** A SYN that opens an entry although the table is full. */
  ghost predicate Overflow(t: Table, p: Segment) {
    p.syn && !Closes(p) && KeyOf(p) !in t.streams && |t.streams| >= 1024
  }

  /** How many SYNs of a run did so. */
  ghost function Overflows(ps: seq<Segment>, wellFormed: seq<byte> -> bool): nat {
    if ps == [] then 0
    else
      var n := |ps| - 1;
      Overflows(ps[..n], wellFormed) + if Overflow(RunTable(ps[..n], wellFormed).table, ps[n]) then 1 else 0
  }

  /** Any segment keeps a stream within its bounds, a message comes out only as the stream finishes, and done is done. */
  lemma {:induction false} LifeCapped(s: State, p: Segment, wellFormed: seq<byte> -> bool)
    requires WellFormed(s.head) && Capped(s)
    ensures var o := Feed(s, p.seqNo, p.payload, PortsOf(p), wellFormed);
            Capped(o.state) && (o.emitted.Some? ==> !s.done && o.state.done) && (s.done ==> o.state.done)
  {
    NothingIsCapped();
    if !s.done {
      var seated := Seated(s, p.seqNo);
      SeatedCapped(s, p.seqNo);
      if Offset(s, p.seqNo) < MAX_STREAM_BYTES {
        hide RangeTotal, Seated, Decoded, RunLength, Offset;
      }
    }
  }

  lemma NothingIsCapped()
    ensures RangeTotal(EMPTY) == 0
  {
    assert Ranges.RunStarts(EMPTY.held.Keys) == {};
  }

  /** Moving the start back cannot split a run of held bytes. */
  lemma {:induction false} SeatedCapped(s: State, seqNo: u32)
    requires WellFormed(s.head) && Capped(s)
    ensures Seated(s, seqNo).head.len <= MAX_STREAM_BYTES && RangeTotal(Seated(s, seqNo).head) <= MAX_RANGES
  {
    var delta: nat := WrapSub(s.base, seqNo);
    var before, after := Ranges.RunStarts(s.head.held.Keys), Ranges.RunStarts(Shift(s.head, delta, MAX_STREAM_BYTES).held.Keys);
    forall x | x in after ensures x - delta in before {
      ShiftAt(s.head, delta, MAX_STREAM_BYTES, x);
      ShiftAt(s.head, delta, MAX_STREAM_BYTES, x - 1);
      assert Ranges.HasPredecessor(Shift(s.head, delta, MAX_STREAM_BYTES).held.Keys, x)
             <==> x - 1 in Shift(s.head, delta, MAX_STREAM_BYTES).held.Keys;
      assert Ranges.HasPredecessor(s.head.held.Keys, x - delta) <==> x - delta - 1 in s.head.held.Keys;
    }
    TranslatedNoLarger(after, before, delta);
  }

  lemma {:induction false} TranslatedNoLarger(a: set<int>, b: set<int>, delta: int)
    requires forall x :: x in a ==> x - delta in b
    ensures |a| <= |b|
    decreases |a|
  {
    if x :| x in a {
      assert forall y :: y in a - {x} ==> y - delta in b - {x - delta};
      TranslatedNoLarger(a - {x}, b - {x - delta}, delta);
    } else {
      assert forall x :: x !in a;
      assert a == {};
    }
  }

  /**
   Every bound the module keeps, after any run: bytes and ranges per stream, bytes in all, and no more messages
   recovered than streams finished.
   */
  lemma {:induction false} Bounded(ps: seq<Segment>, wellFormed: seq<byte> -> bool)
    ensures var t := RunTable(ps, wellFormed).table;
            && (forall k :: k in t.streams ==> Capped(t.streams[k]))
            && t.recovered <= |DoneKeys(t)|
            && Buffered(t) <= |t.streams| * 16_384
    decreases |ps|
  {
    var t := RunTable(ps, wellFormed).table;
    if ps != [] {
      Bounded(ps[..|ps| - 1], wellFormed);
      StepBounded(RunTable(ps[..|ps| - 1], wellFormed).table, ps[|ps| - 1], wellFormed);
      hide Step;
    } else {
      assert DoneKeys(t) == {};
    }
    BufferedBound(t);
  }

  lemma BufferedBound(t: Table)
    requires forall k :: k in t.streams ==> Capped(t.streams[k])
    ensures Buffered(t) <= |t.streams| * MAX_STREAM_BYTES
  {
    var lens := map k | k in t.streams :: t.streams[k].head.len;
    Sums.SumBound(lens, MAX_STREAM_BYTES);
    assert lens.Keys == t.streams.Keys;
    assert |lens| == |lens.Keys| && |t.streams| == |t.streams.Keys|;
  }

  lemma {:induction false} StepBounded(t: Table, p: Segment, wellFormed: seq<byte> -> bool)
    requires Sound(t) && t.recovered <= |DoneKeys(t)|
    requires forall k :: k in t.streams ==> Capped(t.streams[k])
    ensures var t' := Step(t, p, wellFormed).0;
            && t'.recovered <= |DoneKeys(t')|
            && (forall k :: k in t'.streams ==> Capped(t'.streams[k]))
  {
    NothingIsCapped();
    var k := KeyOf(p);
    if Closes(p) {
      if k in t.streams {
        SetBounded(t, k, Finished(t.streams[k]), 0);
      }
    } else if p.syn {
      var s := if k in t.streams then t.streams[k] else Fresh(WrapAdd(p.seqNo, 1));
      SetBounded(t, k, Anchored(s, p.seqNo), 0);
    } else if p.payload != [] && !Dropped(t, p) {
      var s := if k in t.streams then t.streams[k] else Fresh(p.seqNo);
      LifeCapped(s, p, wellFormed);
      var o := Feed(s, p.seqNo, p.payload, PortsOf(p), wellFormed);
      SetBounded(t, k, o.state, if o.emitted.Some? then 1 else 0);
      hide Feed, Capped;
    }
  }

  /** Setting one entry, which may finish and may have brought a message out, keeps the counts in step. */
  lemma {:induction false} SetBounded(t: Table, k: Routed, s: State, recovered: nat)
    requires t.recovered <= |DoneKeys(t)|
    requires k in t.streams && t.streams[k].done ==> s.done
    requires recovered <= 1 && (recovered == 1 ==> s.done && (k in t.streams ==> !t.streams[k].done))
    ensures var t' := t.(streams := t.streams[k := s]);
            t.recovered + recovered <= |DoneKeys(t')|
  {
    var t' := t.(streams := t.streams[k := s]);
    if s.done && !(k in t.streams && t.streams[k].done) {
      assert DoneKeys(t') == DoneKeys(t) + {k} && k !in DoneKeys(t);
    } else {
      assert DoneKeys(t') == DoneKeys(t);
    }
  }

  // ---------------------------------------------------------------------------------------------------------------
  // How many streams are tracked
  // ---------------------------------------------------------------------------------------------------------------

  lemma SizeAfterSet(m: map<Routed, State>, k: Routed, s: State)
    ensures |m[k := s]| == |m| + if k in m then 0 else 1
  {
    assert m[k := s].Keys == m.Keys + {k};
    assert |m[k := s]| == |m[k := s].Keys| && |m| == |m.Keys|;
  }

  /** A packet adds at most its own direction, and at a full table only an overflowing SYN does. */
  lemma StepSize(t: Table, p: Segment, wellFormed: seq<byte> -> bool)
    requires Sound(t)
    ensures var size, size' := |t.streams|, |Step(t, p, wellFormed).0.streams|;
            if Overflow(t, p) then size' == size + 1
            else size <= size' <= size + 1 && (size >= MAX_TRACKED_STREAMS ==> size' == size)
  {
    hide Feed, Anchored;
    var k := KeyOf(p);
    if k in t.streams {
      SizeAfterSet(t.streams, k, Finished(t.streams[k]));
    }
    var seated := if k in t.streams then t.streams[k] else Fresh(WrapAdd(p.seqNo, 1));
    SizeAfterSet(t.streams, k, Anchored(seated, p.seqNo));
    var s := if k in t.streams then t.streams[k] else Fresh(p.seqNo);
    SizeAfterSet(t.streams, k, Feed(s, p.seqNo, p.payload, PortsOf(p), wellFormed).state);
  }

  /** The number of streams: within the cap, unless SYNs overflowed it, and then exactly by those. */
  lemma {:induction false} TrackedExactly(ps: seq<Segment>, wellFormed: seq<byte> -> bool)
    ensures var size, over := |RunTable(ps, wellFormed).table.streams|, Overflows(ps, wellFormed);
            if over == 0 then size <= 1024 else size == 1024 + over
    decreases |ps|
  {
    hide Step, Overflow, Sound;
    if ps != [] {
      var n := |ps| - 1;
      var t := RunTable(ps[..n], wellFormed).table;
      TrackedExactly(ps[..n], wellFormed);
      StepSize(t, ps[n], wellFormed);
      OverflowsFull(t, ps[n]);
    }
  }

  lemma OverflowsFull(t: Table, p: Segment)
    ensures Overflow(t, p) ==> |t.streams| >= MAX_TRACKED_STREAMS
  {
  }

  /** The documented cap holds after a run exactly when no SYN of the run opened an entry at a full table. */
  lemma CapHoldsExactly(ps: seq<Segment>, wellFormed: seq<byte> -> bool)
    ensures |RunTable(ps, wellFormed).table.streams| <= 1024 <==> Overflows(ps, wellFormed) == 0
  {
    hide RunTable, Overflows;
    TrackedExactly(ps, wellFormed);
  }

  /** A SYN from one of many ports of one host to one service of another. */
  function ScanSyn(port: u16): Segment {
    Segment(Endpoint(V4(1), port), Endpoint(V4(2), 80), 0, false, false, true, [], NoApp)
  }

  function Scan(n: nat): seq<Segment>
    requires n <= 0x1_0000
  {
    seq(n, i requires 0 <= i < n => ScanSyn(i))
  }

  /** A scan of SYNs from distinct ports tracks one stream a port, however many there are. */
  lemma {:induction false} ScanTracksAll(n: nat, wellFormed: seq<byte> -> bool)
    requires n <= 0x1_0000
    ensures |RunTable(Scan(n), wellFormed).table.streams| == n
    ensures forall k :: k in RunTable(Scan(n), wellFormed).table.streams ==> exists i :: 0 <= i < n && k == KeyOf(ScanSyn(i))
    decreases n
  {
    if n > 0 {
      ScanTracksAll(n - 1, wellFormed);
      assert Scan(n)[..n - 1] == Scan(n - 1);
      var t, p := RunTable(Scan(n - 1), wellFormed).table, ScanSyn(n - 1);
      assert KeyOf(p) !in t.streams;
      ScanStep(t, p, wellFormed);
    }
  }

  lemma ScanStep(t: Table, p: Segment, wellFormed: seq<byte> -> bool)
    requires Sound(t) && p.syn && !Closes(p) && KeyOf(p) !in t.streams
    ensures var t' := Step(t, p, wellFormed).0;
            t'.streams.Keys == t.streams.Keys + {KeyOf(p)} && |t'.streams| == |t.streams| + 1
  {
    SizeAfterSet(t.streams, KeyOf(p), Anchored(Fresh(WrapAdd(p.seqNo, 1)), p.seqNo));
  }

  /** 1025 SYNs are enough to pass the documented cap, and 65536 track 65536 streams. */
  lemma CapIsPassed(wellFormed: seq<byte> -> bool)
    ensures |RunTable(Scan(1024 + 1), wellFormed).table.streams| > 1024
    ensures |RunTable(Scan(0x1_0000), wellFormed).table.streams| == 0x1_0000
  {
    hide RunTable, Scan;
    ScanTracksAll(MAX_TRACKED_STREAMS + 1, wellFormed);
    ScanTracksAll(0x1_0000, wellFormed);
  }

  // ---------------------------------------------------------------------------------------------------------------
  // The counters
  // ---------------------------------------------------------------------------------------------------------------

  /** The last packet was taken, and conflicts in the run of its own direction. */
  ghost predicate ConflictsLast(ps: seq<Segment>, wellFormed: seq<byte> -> bool)
    requires ps != []
  {
    var kept := Kept(ps, KeyOf(ps[|ps| - 1]), wellFormed);
    !RefusedLast(ps, wellFormed) && kept != [] && RunOf(kept, wellFormed).conflicts[|kept| - 1]
  }

  ghost function Refusals(ps: seq<Segment>, wellFormed: seq<byte> -> bool): nat {
    if ps == [] then 0 else Refusals(ps[..|ps| - 1], wellFormed) + if RefusedLast(ps, wellFormed) then 1 else 0
  }

  ghost function Conflicting(ps: seq<Segment>, wellFormed: seq<byte> -> bool): nat {
    if ps == [] then 0 else Conflicting(ps[..|ps| - 1], wellFormed) + if ConflictsLast(ps, wellFormed) then 1 else 0
  }

  /** What one packet adds to the counters, in terms of its own direction. */
  lemma StepCounts(t: Table, p: Segment, wellFormed: seq<byte> -> bool)
    requires Sound(t)
    ensures Healthy(Entry(t, KeyOf(p)))
    ensures var (t', out) := Step(t, p, wellFormed);
            var refused := OpensOrFeeds(p) && Dropped(t, p);
            && t'.recovered == t.recovered + (if out.Some? then 1 else 0)
            && t'.dropped == t.dropped + (if refused then 1 else 0)
            && t'.conflicting == t.conflicting + (if !refused && LifeStep(Entry(t, KeyOf(p)), p, wellFormed).conflict then 1 else 0)
  {
    hide Feed;
  }

  lemma ConflictIsLocal(ps: seq<Segment>, wellFormed: seq<byte> -> bool)
    requires ps != [] && !RefusedLast(ps, wellFormed)
    ensures var t, p := RunTable(ps[..|ps| - 1], wellFormed).table, ps[|ps| - 1];
            && Healthy(Entry(t, KeyOf(p)))
            && (ConflictsLast(ps, wellFormed) <==> LifeStep(Entry(t, KeyOf(p)), p, wellFormed).conflict)
  {
    hide LifeStep, RefusedLast, RunTable;
    var before, p := ps[..|ps| - 1], ps[|ps| - 1];
    Isolation(before, KeyOf(p), wellFormed);
    var kept := Kept(before, KeyOf(p), wellFormed);
    assert Kept(ps, KeyOf(p), wellFormed) == kept + [p] && (kept + [p])[..|kept|] == kept;
  }

  /** After any run the three counters count messages recovered, data packets refused, and packets that conflicted. */
  lemma {:induction false} CountersMeaning(ps: seq<Segment>, wellFormed: seq<byte> -> bool)
    ensures RunTable(ps, wellFormed).table.recovered == CountSome(RunTable(ps, wellFormed).outs)
    ensures RunTable(ps, wellFormed).table.dropped == Refusals(ps, wellFormed)
    ensures RunTable(ps, wellFormed).table.conflicting == Conflicting(ps, wellFormed)
    decreases |ps|
  {
    hide Step, Sound, ConflictsLast, OpensOrFeeds, LifeStep, Dropped;
    if ps != [] {
      var before, p := ps[..|ps| - 1], ps[|ps| - 1];
      CountersMeaning(before, wellFormed);
      StepCounts(RunTable(before, wellFormed).table, p, wellFormed);
      assert RunTable(ps, wellFormed).outs[..|ps| - 1] == RunTable(before, wellFormed).outs;
      if RefusedLast(ps, wellFormed) {
        RefusedIsNoConflict(ps, wellFormed);
      } else {
        ConflictIsLocal(ps, wellFormed);
      }
    }
  }

  lemma RefusedIsNoConflict(ps: seq<Segment>, wellFormed: seq<byte> -> bool)
    requires ps != [] && RefusedLast(ps, wellFormed)
    ensures !ConflictsLast(ps, wellFormed)
  {
  }

  /** A data packet conflicts exactly when it is accepted and differs from a byte its direction was sent before. */
  lemma ConflictInTraffic(ps: seq<Segment>, at: seq<int>, wellFormed: seq<byte> -> bool)
    requires ps != [] && !RefusedLast(ps, wellFormed) && IsData(ps[|ps| - 1])
    requires var kept := Kept(ps, KeyOf(ps[|ps| - 1]), wellFormed);
             |at| == |kept| && PlaceableRun(kept, at)
    ensures var p, kept := ps[|ps| - 1], Kept(ps, KeyOf(ps[|ps| - 1]), wellFormed);
            && kept != [] && kept[|kept| - 1] == p
            && var n := |kept| - 1;
               var s, i := RunOf(kept[..n], wellFormed).stream, Before(kept, at);
               ConflictsLast(ps, wellFormed) <==>
               (s.None? || !s.value.done) && Accepts(i, at[n])
               && Disagrees(FirstWriter(i.log), Chunk(at[n], p.payload), Min(at[n], i.origin), MAX_STREAM_BYTES)
  {
    hide RefusedLast, RunOf, Disagrees, FirstWriter, PlaceableRun, Accepts, IsData, Before;
    ConflictMeaning(Kept(ps, KeyOf(ps[|ps| - 1]), wellFormed), at, wellFormed);
  }
}
