/**
 One direction of a connection over a whole run, in unwrapped sequence space: the buffer is the first-writer map of
 every accepted segment, seen through the window of 16384 positions at the stream's start.
 */
module TcpRuns {
  import opened Wrappers
  import opened Words
  import opened HeadBuffer
  import opened Apps
  import opened TcpReassembly

  // ---------------------------------------------------------------------------------------------------------------
  // Runs of one direction
  // ---------------------------------------------------------------------------------------------------------------

  /** The stream, once some packet made the table track it. */
  datatype Life = Life(stream: Option<State>, emitted: Option<AppLayer>, conflict: bool)

  ghost predicate Healthy(s: Option<State>) {
    s.Some? ==> WellFormed(s.value.head)
  }

  /** What one packet of the direction does, when the table has room for it. */
  ghost function LifeStep(s: Option<State>, p: Segment, wellFormed: seq<byte> -> bool): (l: Life)
    requires Healthy(s)
    ensures Healthy(l.stream)
  {
    if Closes(p) then Life(if s.Some? then Some(Finished(s.value)) else None, None, false)
    else if p.syn then Life(Some(Anchored(if s.Some? then s.value else Fresh(WrapAdd(p.seqNo, 1)), p.seqNo)), None, false)
    else if p.payload == [] then Life(s, None, false)
    else
      var o := Feed(if s.Some? then s.value else Fresh(p.seqNo), p.seqNo, p.payload, PortsOf(p), wellFormed);
      Life(Some(o.state), o.emitted, o.conflict)
  }

  datatype Run = Run(stream: Option<State>, outs: seq<Option<AppLayer>>, conflicts: seq<bool>)

  ghost function RunOf(ps: seq<Segment>, wellFormed: seq<byte> -> bool): (r: Run)
    ensures Healthy(r.stream) && |r.outs| == |r.conflicts| == |ps|
  {
    if ps == [] then Run(None, [], [])
    else
      var before := RunOf(ps[..|ps| - 1], wellFormed);
      var l := LifeStep(before.stream, ps[|ps| - 1], wellFormed);
      Run(l.stream, before.outs + [l.emitted], before.conflicts + [l.conflict])
  }

  ghost predicate Open(r: Run) {
    r.stream.Some? && !r.stream.value.done
  }

  // ---------------------------------------------------------------------------------------------------------------
  // The same runs in unbounded sequence space
  // ---------------------------------------------------------------------------------------------------------------

  /** The position of the stream's start, and every accepted write at its own position. */
  datatype Ideal = Ideal(origin: int, log: seq<Chunk>, synBased: bool)

  ghost function IdealData(i: Ideal, at: int, payload: seq<byte>): Ideal {
    if !Accepts(i, at) then i
    else if at < i.origin then Ideal(at, i.log + [Chunk(at, payload)], false)
    else i.(log := i.log + [Chunk(at, payload)])
  }

  /** Inside the window, or in front of it by no more than a window when no SYN fixed the start. */
  ghost predicate Accepts(i: Ideal, at: int) {
    i.origin <= at < i.origin + MAX_STREAM_BYTES || (!i.synBased && i.origin - MAX_STREAM_BYTES <= at < i.origin)
  }

  /** The last packet a direction needs: an end, a reset, or a payload that decoded to a whole message by itself. */
  ghost predicate Ends(p: Segment) {
    || p.fin || p.rst || p.app.Dns?
    || (p.app.Http? && p.app.http.complete) || (p.app.Tls? && p.app.hello.complete)
  }

  /** The same writes, all `delta` later. */
  ghost function Moved(log: seq<Chunk>, delta: int): (moved: seq<Chunk>)
    ensures |moved| == |log| && forall k :: 0 <= k < |log| ==> moved[k] == Chunk(log[k].at + delta, log[k].bytes)
  {
    seq(|log|, k requires 0 <= k < |log| => Chunk(log[k].at + delta, log[k].bytes))
  }

  /**
   `at` is the unwrapped position of the packet's sequence number. A SYN that names another start takes everything
   written before along to it.
   */
  ghost function IdealStep(i: Option<Ideal>, p: Segment, at: int): Option<Ideal> {
    if Ends(p) || (!p.syn && p.payload == []) then i
    else if p.syn then
      if i.None? || i.value.log == [] then Some(Ideal(at + 1, [], true))
      else if SameBase(i.value.origin, p.seqNo) then Some(i.value.(synBased := true))
      else Some(Ideal(at + 1, Moved(i.value.log, at + 1 - i.value.origin), true))
    else Some(IdealData(if i.Some? then i.value else Ideal(at, [], false), at, p.payload))
  }

  ghost function IdealRun(ps: seq<Segment>, at: seq<int>): Option<Ideal>
    requires |at| == |ps|
  {
    if ps == [] then None
    else IdealStep(IdealRun(ps[..|ps| - 1], at[..|ps| - 1]), ps[|ps| - 1], at[|ps| - 1])
  }

  /** Less than a whole turn of the sequence space away, by a window's margin. */
  ghost predicate Nearby(origin: int, at: int) {
    -(TWO32 - MAX_STREAM_BYTES) <= at - origin < TWO32 - MAX_STREAM_BYTES
  }

  /** A packet's position agrees with its number, and is not a turn away from the start. */
  ghost predicate Placeable(i: Option<Ideal>, p: Segment, at: int) {
    && p.seqNo == Wrap32(at)
    && (i.Some? && !p.syn ==> Nearby(i.value.origin, at))
  }

  ghost predicate SameBase(origin: int, seqNo: u32) {
    Wrap32(origin) == WrapAdd(seqNo, 1)
  }

  ghost predicate PlaceableRun(ps: seq<Segment>, at: seq<int>)
    requires |at| == |ps|
  {
    ps != [] ==>
      var n := |ps| - 1;
      PlaceableRun(ps[..n], at[..n]) && Placeable(IdealRun(ps[..n], at[..n]), ps[n], at[n])
  }

  ghost function Reach(log: seq<Chunk>): int
    requires log != []
  {
    var last := log[|log| - 1];
    if |log| == 1 then last.at + |last.bytes| else Max(Reach(log[..|log| - 1]), last.at + |last.bytes|)
  }

  /** A stream stands for its ideal: same start, same writes, seen through the window. */
  ghost predicate Refines(s: State, i: Ideal) {
    && s.base == Wrap32(i.origin) && s.synBased == i.synBased && s.segments == |i.log|
    && (forall x :: x in FirstWriter(i.log) ==> i.origin <= x)
    && s.head.held == Window(FirstWriter(i.log), i.origin, MAX_STREAM_BYTES)
    && s.head.len == if i.log == [] then 0 else Min(MAX_STREAM_BYTES, Reach(i.log) - i.origin)
  }

  /** 32-bit subtraction sees exactly what the unbounded positions say. */
  lemma WrapSees(origin: int, at: int)
    requires Nearby(origin, at)
    ensures var back := WrapSub(Wrap32(origin), Wrap32(at));
            0 < back <= MAX_STREAM_BYTES <==> origin - MAX_STREAM_BYTES <= at < origin
    ensures origin - MAX_STREAM_BYTES <= at < origin ==> WrapSub(Wrap32(origin), Wrap32(at)) == origin - at
    ensures at >= origin ==> WrapSub(Wrap32(at), Wrap32(origin)) == at - origin
    ensures at < origin ==> WrapSub(Wrap32(at), Wrap32(origin)) >= MAX_STREAM_BYTES
  {
    SubOfWraps(origin, at);
    SubOfWraps(at, origin);
  }

  lemma SubOfWraps(a: int, b: int)
    ensures WrapSub(Wrap32(a), Wrap32(b)) == (a - b) % TWO32
  {
    var qa, qb := a / TWO32, b / TWO32;
    assert Wrap32(a) == a - qa * TWO32 && Wrap32(b) == b - qb * TWO32;
    var r, q := (a - b) % TWO32, (a - b) / TWO32;
    assert a - b == q * TWO32 + r;
    assert Wrap32(a) - Wrap32(b) == (q - qa + qb) * TWO32 + r;
  }

  lemma ReachSnoc(log: seq<Chunk>, c: Chunk)
    ensures Reach(log + [c]) == if log == [] then c.at + |c.bytes| else Max(Reach(log), c.at + |c.bytes|)
  {
    assert (log + [c])[..|log|] == log;
  }

  /** Seating and writing a segment is one ideal step. */
  lemma PlacedRefines(s: State, i: Ideal, at: int, payload: seq<byte>)
    requires Refines(s, i) && Nearby(i.origin, at) && payload != []
    requires i.synBased || i.log != [] || at == i.origin
    ensures Accepts(i, at) <==> Offset(s, Wrap32(at)) < MAX_STREAM_BYTES
    ensures !Accepts(i, at) ==> Seated(s, Wrap32(at)) == s && IdealData(i, at, payload) == i
    ensures Accepts(i, at) ==> Refines(Placed(s, Wrap32(at), payload), IdealData(i, at, payload))
    ensures Accepts(i, at) ==>
              (Conflicts(Seated(s, Wrap32(at)).head, Offset(s, Wrap32(at)), payload, MAX_STREAM_BYTES)
               <==> Disagrees(FirstWriter(i.log), Chunk(at, payload), Min(at, i.origin), MAX_STREAM_BYTES))
  {
    hide Refines, WrapSub, Wrap32, Conflicts, Disagrees, WriteTo, FirstWriter, Seated, Offset;
    SeatedSees(s, i, at);
    if Accepts(i, at) {
      if at < i.origin {
        SeatedRefines(s, i, at);
        WriteRefines(Seated(s, Wrap32(at)), i.(origin := at), at, payload);
      } else {
        WriteRefines(s, i, at, payload);
      }
    }
  }

  lemma SeatedSees(s: State, i: Ideal, at: int)
    requires Refines(s, i) && Nearby(i.origin, at)
    ensures at < i.origin && Accepts(i, at) ==> Offset(s, Wrap32(at)) == 0
    ensures at < i.origin && !Accepts(i, at) ==> Offset(s, Wrap32(at)) >= MAX_STREAM_BYTES && Seated(s, Wrap32(at)) == s
    ensures at >= i.origin ==> Offset(s, Wrap32(at)) == at - i.origin && Seated(s, Wrap32(at)) == s
    ensures s.synBased == i.synBased
  {
    WrapSees(i.origin, at);
    if at < i.origin && Accepts(i, at) {
      SubOfWraps(at, at);
    }
  }

  /** Moving the start back keeps the stream in step with the same log at the earlier start. */
  lemma SeatedRefines(s: State, i: Ideal, at: int)
    requires Refines(s, i) && Nearby(i.origin, at) && at < i.origin && Accepts(i, at) && i.log != []
    ensures Refines(Seated(s, Wrap32(at)), i.(origin := at))
  {
    hide Window, Shift, FirstWriter, Reach, WrapSub;
    WrapSees(i.origin, at);
    WindowShift(s.head, FirstWriter(i.log), i.origin, i.origin - at, MAX_STREAM_BYTES);
    assert i.origin - (i.origin - at) == at;
    ShiftLen(s.head, i.origin - at, MAX_STREAM_BYTES);
    assert Min(Min(MAX_STREAM_BYTES, Reach(i.log) - i.origin) + (i.origin - at), MAX_STREAM_BYTES)
           == Min(MAX_STREAM_BYTES, Reach(i.log) - at);
  }

  lemma ShiftLen(h: Head, delta: nat, cap: nat)
    ensures Shift(h, delta, cap).len == Min(h.len + delta, cap)
  {
  }

  /** Writing keeps the stream in step with the log that has the write appended. */
  lemma WriteRefines(s: State, i: Ideal, at: int, payload: seq<byte>)
    requires Refines(s, i) && i.origin <= at < i.origin + MAX_STREAM_BYTES && payload != []
    ensures var written := s.(head := WriteTo(s.head, at - i.origin, payload, MAX_STREAM_BYTES), segments := s.segments + 1);
            Refines(written, i.(log := i.log + [Chunk(at, payload)]))
    ensures Conflicts(s.head, at - i.origin, payload, MAX_STREAM_BYTES)
            <==> Disagrees(FirstWriter(i.log), Chunk(at, payload), i.origin, MAX_STREAM_BYTES)
  {
    hide Window, WriteTo, Conflicts, Disagrees, FirstWriter, Reach, Merge;
    var c := Chunk(at, payload);
    WindowWrite(s.head, FirstWriter(i.log), c, i.origin, MAX_STREAM_BYTES);
    FirstWriterSnoc(i.log, c);
    ReachSnoc(i.log, c);
    WriteLen(s.head, at - i.origin, payload, MAX_STREAM_BYTES);
    forall x ensures x in Merge(FirstWriter(i.log), c) <==> x in FirstWriter(i.log) || Has(c, x) {
      MergeAt(FirstWriter(i.log), c, x);
    }
  }

  lemma WriteLen(h: Head, offset: nat, payload: seq<byte>, cap: nat)
    requires payload != [] && offset < cap
    ensures WriteTo(h, offset, payload, cap).len == Max(h.len, Min(offset + |payload|, cap))
  {
  }

  // ---------------------------------------------------------------------------------------------------------------
  // The run theorem
  // ---------------------------------------------------------------------------------------------------------------

  /** What one data segment does to a stream in step with its ideal. */
  lemma FeedRefines(s: State, i: Ideal, p: Segment, at: int, wellFormed: seq<byte> -> bool)
    requires WellFormed(s.head) && !s.done && Refines(s, i)
    requires p.seqNo == Wrap32(at) && Nearby(i.origin, at) && p.payload != []
    requires i.synBased || i.log != [] || at == i.origin
    ensures var o, i' := Feed(s, p.seqNo, p.payload, PortsOf(p), wellFormed), IdealData(i, at, p.payload);
            && (!o.state.done ==> Refines(o.state, i'))
            && (o.conflict <==> Accepts(i, at)
                                && Disagrees(FirstWriter(i.log), Chunk(at, p.payload), Min(at, i.origin), MAX_STREAM_BYTES))
            && (Accepts(i, at) <==> i'.log != i.log)
            && (i'.synBased == i.synBased)
  {
    hide Refines, Seated, Offset, Placed, WrapSub, Wrap32, Conflicts, Disagrees, FirstWriter, WellFormed, Feed;
    PlacedRefines(s, i, at, p.payload);
    FeedCases(s, p.seqNo, p.payload, PortsOf(p), wellFormed);
    assert (i.log + [Chunk(at, p.payload)]) != i.log by {
      assert |i.log + [Chunk(at, p.payload)]| == |i.log| + 1;
    }
  }

  lemma FeedCases(s: State, seqNo: u32, payload: seq<byte>, ports: Ports, wellFormed: seq<byte> -> bool)
    requires WellFormed(s.head) && !s.done
    ensures var o := Feed(s, seqNo, payload, ports, wellFormed);
            if Offset(s, seqNo) >= MAX_STREAM_BYTES then o == Outcome(Seated(s, seqNo), None, false)
            else (!o.state.done ==> o.state == Placed(s, seqNo, payload))
                 && (o.conflict <==> Conflicts(Seated(s, seqNo).head, Offset(s, seqNo), payload, MAX_STREAM_BYTES))
  {
  }

  /**
   Sequence-space refinement. On every run an open stream holds exactly the first-writer map of its accepted segments,
   taken over unwrapped positions and seen through the window at its start, through every move of the start, every
   clamp and every 32-bit wrap. Each segment stands at its own position, unless a later SYN moved it along.
   */
  lemma {:induction false} RunRefines(ps: seq<Segment>, at: seq<int>, wellFormed: seq<byte> -> bool)
    requires |at| == |ps| && PlaceableRun(ps, at) && Open(RunOf(ps, wellFormed))
    ensures IdealRun(ps, at).Some? && Refines(RunOf(ps, wellFormed).stream.value, IdealRun(ps, at).value)
    ensures IdealRun(ps, at).value.synBased || IdealRun(ps, at).value.log != []
    decreases |ps|
  {
    var n := |ps| - 1;
    var before, p := RunOf(ps[..n], wellFormed), ps[n];
    if before.stream.Some? {
      DoneStays(before.stream, p, wellFormed);
      RunRefines(ps[..n], at[..n], wellFormed);
      StepRefines(before.stream.value, IdealRun(ps[..n], at[..n]).value, p, at[n], wellFormed);
    } else {
      UntrackedIsNone(ps[..n], at[..n], wellFormed);
      FirstStepRefines(p, at[n], wellFormed);
    }
  }

  lemma DoneStays(s: Option<State>, p: Segment, wellFormed: seq<byte> -> bool)
    requires Healthy(s) && s.Some?
    ensures LifeStep(s, p, wellFormed).stream.Some?
    ensures s.value.done ==> LifeStep(s, p, wellFormed).stream.value.done && LifeStep(s, p, wellFormed).emitted.None?
  {
  }

  lemma {:induction false} UntrackedIsNone(ps: seq<Segment>, at: seq<int>, wellFormed: seq<byte> -> bool)
    requires |at| == |ps| && RunOf(ps, wellFormed).stream.None?
    ensures IdealRun(ps, at).None?
    decreases |ps|
  {
    if ps != [] {
      hide Feed;
      UntrackedIsNone(ps[..|ps| - 1], at[..|ps| - 1], wellFormed);
    }
  }

  lemma StepRefines(s: State, i: Ideal, p: Segment, at: int, wellFormed: seq<byte> -> bool)
    requires WellFormed(s.head) && !s.done && Refines(s, i) && Placeable(Some(i), p, at)
    requires i.synBased || i.log != []
    ensures var l, i' := LifeStep(Some(s), p, wellFormed), IdealStep(Some(i), p, at);
            !l.stream.value.done ==> i'.Some? && Refines(l.stream.value, i'.value) && (i'.value.synBased || i'.value.log != [])
  {
    if Closes(p) {
    } else if p.syn {
      SynRefines(s, i, p, at);
    } else if p.payload != [] {
      FeedRefines(s, i, p, at, wellFormed);
      hide Refines, Feed;
    }
  }

  lemma SynRefines(s: State, i: Ideal, p: Segment, at: int)
    requires !s.done && Refines(s, i) && Placeable(Some(i), p, at) && p.syn && !Closes(p)
    ensures Refines(Anchored(s, p.seqNo), IdealStep(Some(i), p, at).value)
  {
    hide Refines, Moved, WrapAdd, Wrap32, Anchored;
    NextNumber(at);
    if i.log == [] {
      EmptySynRefines(s, i, p.seqNo, at + 1);
    } else if SameBase(i.origin, p.seqNo) {
      SameBaseRefines(s, i, p.seqNo);
    } else {
      MovedRefines(s, i, p.seqNo, at + 1);
    }
  }

  lemma EmptySynRefines(s: State, i: Ideal, seqNo: u32, origin: int)
    requires !s.done && Refines(s, i) && i.log == [] && WrapAdd(seqNo, 1) == Wrap32(origin)
    ensures Refines(Anchored(s, seqNo), Ideal(origin, [], true))
  {
    hide Window, Reach;
    EmptyWindow(i.origin);
    EmptyWindow(origin);
  }

  lemma SameBaseRefines(s: State, i: Ideal, seqNo: u32)
    requires !s.done && Refines(s, i) && SameBase(i.origin, seqNo)
    ensures Refines(Anchored(s, seqNo), i.(synBased := true))
  {
    hide Window, FirstWriter, Reach;
  }

  /** The SYN moves the base and not the bytes, which is moving the writes along with the start. */
  lemma MovedRefines(s: State, i: Ideal, seqNo: u32, origin: int)
    requires !s.done && Refines(s, i) && i.log != [] && WrapAdd(seqNo, 1) == Wrap32(origin)
    ensures Refines(Anchored(s, seqNo), Ideal(origin, Moved(i.log, origin - i.origin), true))
  {
    hide Window, FirstWriter, Reach, Moved;
    var delta := origin - i.origin;
    MovedWindow(i.log, i.origin, delta);
    MovedReach(i.log, delta);
    forall x ensures x in FirstWriter(Moved(i.log, delta)) ==> origin <= x {
      MovedFirstWriter(i.log, delta, x);
    }
  }

  lemma {:induction false} MovedFirstWriter(log: seq<Chunk>, delta: int, x: int)
    ensures x in FirstWriter(Moved(log, delta)) <==> x - delta in FirstWriter(log)
    ensures x in FirstWriter(Moved(log, delta)) ==> FirstWriter(Moved(log, delta))[x] == FirstWriter(log)[x - delta]
    decreases |log|
  {
    hide Merge, Moved;
    if log != [] {
      var n := |log| - 1;
      var moved := Moved(log, delta);
      assert moved[..n] == Moved(log[..n], delta);
      MovedFirstWriter(log[..n], delta, x);
      MergeAt(FirstWriter(moved[..n]), moved[n], x);
      MergeAt(FirstWriter(log[..n]), log[n], x - delta);
    }
  }

  /** Moving the writes and the window together changes nothing of what is seen. */
  lemma MovedWindow(log: seq<Chunk>, origin: int, delta: int)
    ensures Window(FirstWriter(Moved(log, delta)), origin + delta, MAX_STREAM_BYTES) == Window(FirstWriter(log), origin, MAX_STREAM_BYTES)
  {
    hide Window, FirstWriter, Moved;
    var a, b := Window(FirstWriter(Moved(log, delta)), origin + delta, MAX_STREAM_BYTES), Window(FirstWriter(log), origin, MAX_STREAM_BYTES);
    forall at ensures (at in a <==> at in b) && (at in a && at in b ==> a[at] == b[at]) {
      WindowAt(FirstWriter(Moved(log, delta)), origin + delta, MAX_STREAM_BYTES, at);
      WindowAt(FirstWriter(log), origin, MAX_STREAM_BYTES, at);
      MovedFirstWriter(log, delta, origin + delta + at);
    }
    MapsEqual(a, b);
  }

  lemma {:induction false} MovedReach(log: seq<Chunk>, delta: int)
    requires log != []
    ensures Reach(Moved(log, delta)) == Reach(log) + delta
    decreases |log|
  {
    hide Moved;
    var n := |log| - 1;
    if n > 0 {
      assert Moved(log, delta)[..n] == Moved(log[..n], delta);
      MovedReach(log[..n], delta);
    }
  }

  lemma EmptyWindow(origin: int)
    ensures FirstWriter([]) == map[] && Window(map[], origin, MAX_STREAM_BYTES) == map[]
  {
    assert forall at :: !Within(map[], origin, at);
  }

  lemma NextNumber(at: int)
    ensures WrapAdd(Wrap32(at), 1) == Wrap32(at + 1)
  {
  }

  lemma FirstStepRefines(p: Segment, at: int, wellFormed: seq<byte> -> bool)
    requires Placeable(None, p, at)
    ensures var l, i' := LifeStep(None, p, wellFormed), IdealStep(None, p, at);
            l.stream.Some? && !l.stream.value.done ==>
              i'.Some? && Refines(l.stream.value, i'.value) && (i'.value.synBased || i'.value.log != [])
  {
    NextNumber(at);
    EmptyWindow(at);
    EmptyWindow(at + 1);
    if !Closes(p) && !p.syn && p.payload != [] {
      assert Refines(Fresh(p.seqNo), Ideal(at, [], false));
      FeedRefines(Fresh(p.seqNo), Ideal(at, [], false), p, at, wellFormed);
      hide Refines, Feed;
    }
  }

  // ---------------------------------------------------------------------------------------------------------------
  // When positions are placeable
  // ---------------------------------------------------------------------------------------------------------------

  /** The run's SYNs leave the start of a stream that holds data alone. */
  ghost predicate SynsKeepBase(ps: seq<Segment>, at: seq<int>)
    requires |at| == |ps|
  {
    ps != [] ==>
      var n := |ps| - 1;
      var i := IdealRun(ps[..n], at[..n]);
      && SynsKeepBase(ps[..n], at[..n])
      && (ps[n].syn && i.Some? && i.value.log != [] ==> SameBase(i.value.origin, ps[n].seqNo))
  }

  /** Every number is its position modulo 2^32, and all positions lie within less than a turn of each other. */
  ghost predicate WithinATurn(ps: seq<Segment>, at: seq<int>)
    requires |at| == |ps|
  {
    && (forall n :: 0 <= n < |ps| ==> ps[n].seqNo == Wrap32(at[n]))
    && (forall m, n :: 0 <= m < |at| && 0 <= n < |at| ==> at[m] - at[n] < TWO32 - MAX_STREAM_BYTES - 1)
  }

  /** The start of an ideal stream is always one of the positions seen, or the one after. */
  lemma {:induction false} OriginSeen(ps: seq<Segment>, at: seq<int>) returns (n: nat)
    requires |at| == |ps| && IdealRun(ps, at).Some?
    ensures n < |at| && at[n] <= IdealRun(ps, at).value.origin <= at[n] + 1
    decreases |ps|
  {
    var last := |ps| - 1;
    var before := IdealRun(ps[..last], at[..last]);
    if before.Some? && before.value.origin == IdealRun(ps, at).value.origin {
      n := OriginSeen(ps[..last], at[..last]);
    } else {
      n := last;
    }
  }

  /** True positions within less than a turn of each other are always what the 32-bit arithmetic sees. */
  lemma {:induction false} TrueSpanIsPlaceable(ps: seq<Segment>, at: seq<int>)
    requires |at| == |ps| && WithinATurn(ps, at)
    ensures PlaceableRun(ps, at)
    decreases |ps|
  {
    if ps != [] {
      var n := |ps| - 1;
      TrueSpanIsPlaceable(ps[..n], at[..n]);
      if IdealRun(ps[..n], at[..n]).Some? {
        var m := OriginSeen(ps[..n], at[..n]);
        assert at[..n][m] == at[m];
      }
    }
  }

  lemma UnwrapAgrees(low: int, seqNo: u32)
    ensures Wrap32(low + WrapSub(seqNo, Wrap32(low))) == seqNo
  {
    var q := low / TWO32;
    assert low == q * TWO32 + Wrap32(low);
    if seqNo >= Wrap32(low) {
      assert low + WrapSub(seqNo, Wrap32(low)) == q * TWO32 + seqNo;
    } else {
      assert low + WrapSub(seqNo, Wrap32(low)) == (q + 1) * TWO32 + seqNo;
    }
  }

  /** Some accepted write always lies inside the window. */
  ghost predicate Grounded(i: Ideal) {
    i.log != [] ==> exists k :: 0 <= k < |i.log| && i.log[k].bytes != [] && i.origin <= i.log[k].at < i.origin + MAX_STREAM_BYTES
  }

  lemma {:induction false} AlwaysGrounded(ps: seq<Segment>, at: seq<int>)
    requires |at| == |ps|
    ensures IdealRun(ps, at).Some? ==> Grounded(IdealRun(ps, at).value)
    decreases |ps|
  {
    if ps != [] {
      var n := |ps| - 1;
      AlwaysGrounded(ps[..n], at[..n]);
      var before, after := IdealRun(ps[..n], at[..n]), IdealRun(ps, at);
      if after.Some? && after.value.log != [] {
        var i := after.value;
        if before.Some? && before.value.log == i.log && before.value.origin == i.origin {
        } else if before.Some? && before.value.origin == i.origin && before.value.log != [] {
          var k :| 0 <= k < |before.value.log| && before.value.log[k].bytes != []
                   && i.origin <= before.value.log[k].at < i.origin + MAX_STREAM_BYTES;
          assert i.log[k] == before.value.log[k];
        } else if ps[n].syn {
          var was, delta := before.value, at[n] + 1 - before.value.origin;
          var k :| 0 <= k < |was.log| && was.log[k].bytes != [] && was.origin <= was.log[k].at < was.origin + MAX_STREAM_BYTES;
          assert i.log[k] == Chunk(was.log[k].at + delta, was.log[k].bytes);
        } else {
          assert i.log[|i.log| - 1] == Chunk(at[n], ps[n].payload);
        }
      }
    }
  }

  /** Right after a SYN the writes fit at their own positions exactly when there are none or the SYN names the same start. */
  lemma SynMustKeepBase(s: State, i: Ideal, seqNo: u32)
    requires !s.done && Refines(s, i) && Grounded(i)
    ensures (exists origin :: Refines(Anchored(s, seqNo), Ideal(origin, i.log, true)))
            <==> i.log == [] || SameBase(i.origin, seqNo)
  {
    hide Window, FirstWriter, Reach, Grounded;
    var s' := Anchored(s, seqNo);
    if i.log == [] {
      EmptyWindow(i.origin);
      EmptyWindow(WrapAdd(seqNo, 1));
      assert Refines(s', Ideal(WrapAdd(seqNo, 1), i.log, true));
    } else if SameBase(i.origin, seqNo) {
      assert Refines(s', Ideal(i.origin, i.log, true));
    } else if exists origin :: Refines(s', Ideal(origin, i.log, true)) {
      var origin :| Refines(s', Ideal(origin, i.log, true));
      GroundedHolds(i);
      WindowFixesOrigin(FirstWriter(i.log), i.origin, origin);
    }
  }

  lemma GroundedHolds(i: Ideal)
    requires Grounded(i) && i.log != []
    ensures Window(FirstWriter(i.log), i.origin, MAX_STREAM_BYTES) != map[]
  {
    var k :| 0 <= k < |i.log| && i.log[k].bytes != [] && i.origin <= i.log[k].at < i.origin + MAX_STREAM_BYTES;
    FirstWriterMeaning(i.log);
    var x := i.log[k].at;
    assert Has(i.log[k], x);
    assert x in FirstWriter(i.log);
    assert i.origin + (x - i.origin) == x;
    assert Within(FirstWriter(i.log), i.origin, x - i.origin);
    assert x - i.origin in Window(FirstWriter(i.log), i.origin, MAX_STREAM_BYTES);
  }

  /** Every run has a placing: the one the arithmetic sees as nearest at each step. */
  lemma {:induction false} SomePlacingExists(ps: seq<Segment>) returns (at: seq<int>)
    ensures |at| == |ps| && PlaceableRun(ps, at)
    decreases |ps|
  {
    if ps == [] {
      at := [];
    } else {
      var n := |ps| - 1;
      var placed := SomePlacingExists(ps[..n]);
      var i := IdealRun(ps[..n], placed);
      var low := (if i.Some? then i.value.origin else 0) - (TWO32 - MAX_STREAM_BYTES);
      var last := low + WrapSub(ps[n].seqNo, Wrap32(low));
      UnwrapAgrees(low, ps[n].seqNo);
      at := placed + [last];
      assert at[..n] == placed;
    }
  }

  // ---------------------------------------------------------------------------------------------------------------
  // SYNs that move what was written
  // ---------------------------------------------------------------------------------------------------------------

  /** Every write of the log is a segment of the run at its own position. */
  ghost predicate OwnPositions(ps: seq<Segment>, at: seq<int>, log: seq<Chunk>)
    requires |at| == |ps|
  {
    forall k :: 0 <= k < |log| ==> exists n :: 0 <= n < |ps| && log[k] == Chunk(at[n], ps[n].payload)
  }

  /** As long as SYNs keep the start of a stream that holds data, every write stays at its own position. */
  lemma {:induction false} KeptBaseKeepsPositions(ps: seq<Segment>, at: seq<int>)
    requires |at| == |ps| && SynsKeepBase(ps, at)
    ensures IdealRun(ps, at).Some? ==> OwnPositions(ps, at, IdealRun(ps, at).value.log)
    decreases |ps|
  {
    if ps != [] {
      var n := |ps| - 1;
      KeptBaseKeepsPositions(ps[..n], at[..n]);
      var before, after := IdealRun(ps[..n], at[..n]), IdealRun(ps, at);
      if after.Some? {
        forall k | 0 <= k < |after.value.log| ensures exists m :: 0 <= m < |ps| && after.value.log[k] == Chunk(at[m], ps[m].payload) {
          if before.Some? && k < |before.value.log| {
            assert after.value.log[k] == before.value.log[k];
            var m :| 0 <= m < n && before.value.log[k] == Chunk(at[..n][m], ps[..n][m].payload);
            assert after.value.log[k] == Chunk(at[m], ps[m].payload);
          } else {
            assert after.value.log[k] == Chunk(at[n], ps[n].payload);
          }
        }
      }
    }
  }

  /** The same condition read off the streams: no SYN in the run changes the base of a stream that holds data. */
  ghost predicate SynsHonest(ps: seq<Segment>, wellFormed: seq<byte> -> bool) {
    ps != [] ==>
      var n := |ps| - 1;
      SynsHonest(ps[..n], wellFormed) && KeepsBase(RunOf(ps[..n], wellFormed).stream, ps[n])
  }

  ghost predicate KeepsBase(s: Option<State>, p: Segment) {
    p.syn && s.Some? && s.value.head.held != map[] ==> s.value.base == WrapAdd(p.seqNo, 1)
  }

  /** What a stream holds and where it starts are what its writes and their origin say. */
  lemma HeldAndBase(s: State, i: Ideal)
    requires Refines(s, i) && Grounded(i)
    ensures s.head.held == map[] <==> i.log == []
    ensures s.base == Wrap32(i.origin)
  {
    if i.log == [] {
      EmptyWindow(i.origin);
    } else {
      GroundedHolds(i);
    }
  }

  /** For an open stream the two conditions agree, whatever the placing. */
  lemma {:induction false} HonestIsKept(ps: seq<Segment>, at: seq<int>, wellFormed: seq<byte> -> bool)
    requires |at| == |ps| && PlaceableRun(ps, at)
    requires RunOf(ps, wellFormed).stream.None? || Open(RunOf(ps, wellFormed))
    ensures SynsHonest(ps, wellFormed) <==> SynsKeepBase(ps, at)
    decreases |ps|
  {
    hide Refines, LifeStep, IdealStep, Grounded;
    if ps != [] {
      var n := |ps| - 1;
      var before := RunOf(ps[..n], wellFormed);
      if before.stream.Some? {
        DoneStays(before.stream, ps[n], wellFormed);
        HonestIsKept(ps[..n], at[..n], wellFormed);
        RunRefines(ps[..n], at[..n], wellFormed);
        AlwaysGrounded(ps[..n], at[..n]);
        HeldAndBase(before.stream.value, IdealRun(ps[..n], at[..n]).value);
      } else {
        HonestIsKept(ps[..n], at[..n], wellFormed);
        UntrackedIsNone(ps[..n], at[..n], wellFormed);
      }
    }
  }

  /**
   On runs: after a SYN the writes so far still fit, each where it was, exactly when the stream held nothing or the SYN
   named its start.
   */
  lemma {:induction false} SynFitsExactly(ps: seq<Segment>, at: seq<int>, p: Segment, wellFormed: seq<byte> -> bool)
    requires |at| == |ps| && PlaceableRun(ps, at) && Open(RunOf(ps, wellFormed)) && p.syn && !Closes(p)
    ensures IdealRun(ps, at).Some? && RunOf(ps + [p], wellFormed).stream.Some?
    ensures (exists origin :: Refines(RunOf(ps + [p], wellFormed).stream.value, Ideal(origin, IdealRun(ps, at).value.log, true)))
            <==> KeepsBase(RunOf(ps, wellFormed).stream, p)
  {
    hide Refines, IdealRun, PlaceableRun, Grounded;
    assert (ps + [p])[..|ps|] == ps;
    var s := RunOf(ps, wellFormed).stream.value;
    RunRefines(ps, at, wellFormed);
    AlwaysGrounded(ps, at);
    var i := IdealRun(ps, at).value;
    HeldAndBase(s, i);
    SynMustKeepBase(s, i, p.seqNo);
    assert RunOf(ps + [p], wellFormed).stream == Some(Anchored(s, p.seqNo));
  }

  /** A second SYN may name the old start again, and then everything fits as before. */
  lemma SecondSynRestores(s: State, i: Ideal, seqNo: u32)
    requires !s.done && Refines(s, i) && i.log != []
    ensures Refines(Anchored(Anchored(s, seqNo), WrapSub(s.base, 1)), i.(synBased := true))
  {
    hide Window, FirstWriter, Reach;
  }

  /** A non-empty window onto a map with nothing before it says where the window starts. */
  lemma WindowFixesOrigin(m: map<int, byte>, a: int, b: int)
    requires forall x :: x in m ==> a <= x && b <= x
    requires Window(m, a, MAX_STREAM_BYTES) == Window(m, b, MAX_STREAM_BYTES) != map[]
    ensures a == b
  {
    var k :| k in Window(m, a, MAX_STREAM_BYTES);
    if a < b {
      WindowsDiffer(m, a, b, k);
    } else if b < a {
      WindowsDiffer(m, b, a, k);
    }
  }

  /** Equal windows at different starts would repeat every held position further down, without end. */
  lemma {:induction false} WindowsDiffer(m: map<int, byte>, a: int, b: int, k: int)
    requires a < b && k in Window(m, a, MAX_STREAM_BYTES)
    ensures Window(m, a, MAX_STREAM_BYTES) != Window(m, b, MAX_STREAM_BYTES) || exists x :: x in m && x < b
    decreases k
  {
    assert Within(m, a, k) && a + k in m;
    var lower := k - (b - a);
    assert b + lower == a + k;
    assert Within(m, b, lower);
    if lower < 0 {
      assert a + k < b;
    } else {
      assert lower in Window(m, b, MAX_STREAM_BYTES);
      if Window(m, a, MAX_STREAM_BYTES) == Window(m, b, MAX_STREAM_BYTES) {
        WindowsDiffer(m, a, b, lower);
      }
    }
  }
}
