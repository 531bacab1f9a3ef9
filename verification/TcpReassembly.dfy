/** Rebuilding the head of each TCP direction, with 32-bit sequence numbers (section 3.4 of RFC 9293). */
module TcpReassembly {
  import opened Wrappers
  import opened Words
  import opened Ranges
  import opened HeadBuffer
  import opened Net
  import opened FlowKeys
  import opened Apps

  const MAX_STREAM_BYTES: nat := 16 * 1024
  const MAX_TRACKED_STREAMS: nat := 1024
  const MAX_RANGES: nat := 16

  /** What `push` uses of a decoded TCP packet; `app` is what the packet's own payload decoded to. */
  datatype Segment = Segment(src: Endpoint, dst: Endpoint, seqNo: u32, fin: bool, rst: bool, syn: bool,
                             payload: seq<byte>, app: AppLayer)

  function KeyOf(p: Segment): Routed {
    Canonical(p.src, p.dst, PROTO_TCP)
  }

  function PortsOf(p: Segment): Ports {
    Ports(p.src.port, p.dst.port)
  }

  // ---------------------------------------------------------------------------------------------------------------
  // What one segment does, on values
  // ---------------------------------------------------------------------------------------------------------------

  datatype State = State(base: u32, head: Head, segments: nat, synBased: bool, done: bool)

  function Fresh(base: u32): State {
    State(base, EMPTY, 0, false, false)
  }

  ghost function Finished(s: State): State {
    s.(head := EMPTY, done := true)
  }

  /** A segment from before the start moves the start back, unless a SYN settled it. */
  ghost function Seated(s: State, seqNo: u32): State {
    var back := WrapSub(s.base, seqNo);
    if !s.synBased && 0 < back <= MAX_STREAM_BYTES then s.(base := seqNo, head := Shift(s.head, back, MAX_STREAM_BYTES))
    else s
  }

  ghost function Offset(s: State, seqNo: u32): nat {
    WrapSub(seqNo, Seated(s, seqNo).base)
  }

  ghost function Placed(s: State, seqNo: u32, payload: seq<byte>): State {
    var seated := Seated(s, seqNo);
    seated.(head := WriteTo(seated.head, Offset(s, seqNo), payload, MAX_STREAM_BYTES), segments := seated.segments + 1)
  }

  /** What a segment leaves behind: the new state, the message it recovered, and whether it disagreed. */
  datatype Outcome = Outcome(state: State, emitted: Option<AppLayer>, conflict: bool)

  /** What the rebuilt head decodes to. */
  ghost function Decoded(h: Head, ports: Ports, wellFormed: seq<byte> -> bool): AppLayer
    requires WellFormed(h)
  {
    AppFromPayload(ports, Bytes(h, RunLength(h)), true, wellFormed)
  }

  /** What becomes of a stream that has just taken a segment. */
  ghost function Judged(s: State, ports: Ports, wellFormed: seq<byte> -> bool): (State, Option<AppLayer>)
    requires WellFormed(s.head)
  {
    if RangeTotal(s.head) > MAX_RANGES then (Finished(s), None)
    else if s.segments < 2 || RunLength(s.head) == 0 then (s, None)
    else if IsComplete(Decoded(s.head, ports, wellFormed)) then (Finished(s), Some(Decoded(s.head, ports, wellFormed)))
    else if RunLength(s.head) >= MAX_STREAM_BYTES then (Finished(s), None)
    else (s, None)
  }

  ghost function Feed(s: State, seqNo: u32, payload: seq<byte>, ports: Ports, wellFormed: seq<byte> -> bool): (o: Outcome)
    requires WellFormed(s.head)
    ensures WellFormed(o.state.head)
  {
    if s.done then Outcome(s, None, false)
    else if Offset(s, seqNo) >= MAX_STREAM_BYTES then Outcome(Seated(s, seqNo), None, false)
    else
      var (state, emitted) := Judged(Placed(s, seqNo, payload), ports, wellFormed);
      Outcome(state, emitted, Conflicts(Seated(s, seqNo).head, Offset(s, seqNo), payload, MAX_STREAM_BYTES))
  }

  datatype Table = Table(streams: map<Routed, State>, recovered: nat, dropped: nat, conflicting: nat)

  const NO_STREAMS: Table := Table(map[], 0, 0, 0)

  ghost predicate Sound(t: Table) {
    forall k :: k in t.streams ==> WellFormed(t.streams[k].head)
  }

  predicate Closes(p: Segment) {
    p.fin || p.rst || IsComplete(p.app)
  }

  /** A SYN re-seats an open stream on the byte after it. */
  ghost function Anchored(s: State, seqNo: u32): State {
    if s.done then s else s.(base := WrapAdd(seqNo, 1), synBased := true)
  }

  ghost predicate Dropped(t: Table, p: Segment) {
    KeyOf(p) !in t.streams && |t.streams| >= MAX_TRACKED_STREAMS
  }

  ghost function Recorded(t: Table, k: Routed, o: Outcome): Table {
    Table(t.streams[k := o.state],
          t.recovered + (if o.emitted.Some? then 1 else 0),
          t.dropped,
          t.conflicting + (if o.conflict then 1 else 0))
  }

  ghost function Step(t: Table, p: Segment, wellFormed: seq<byte> -> bool): (r: (Table, Option<AppLayer>))
    requires Sound(t)
    ensures Sound(r.0)
  {
    var k := KeyOf(p);
    if Closes(p) then
      (if k in t.streams then t.(streams := t.streams[k := Finished(t.streams[k])]) else t, None)
    else if p.syn then
      var s := if k in t.streams then t.streams[k] else Fresh(WrapAdd(p.seqNo, 1));
      (t.(streams := t.streams[k := Anchored(s, p.seqNo)]), None)
    else if p.payload == [] then (t, None)
    else if Dropped(t, p) then (t.(dropped := t.dropped + 1), None)
    else
      var s := if k in t.streams then t.streams[k] else Fresh(p.seqNo);
      var o := Feed(s, p.seqNo, p.payload, PortsOf(p), wellFormed);
      (Recorded(t, k, o), o.emitted)
  }

  // ---------------------------------------------------------------------------------------------------------------
  // Moving the start of a buffer
  // ---------------------------------------------------------------------------------------------------------------

  /** The range part of `rebase`: shift each range, clip it at the cap, and drop what is left empty. */
  method ShiftRanges(filled: seq<Range>, delta: nat, cap: nat) returns (out: seq<Range>)
    requires Normal(filled)
    ensures Normal(out)
    ensures forall at :: Covers(out, at) <==> at < cap && Covers(filled, at - delta)
  {
    out := [];
    var i := 0;
    while i < |filled|
      invariant 0 <= i <= |filled|
      invariant Normal(out)
      invariant forall k, j :: 0 <= k < |out| && i <= j < |filled| ==> out[k].end < filled[j].start + delta
      invariant forall at :: Covers(out, at) <==> at < cap && Covers(filled[..i], at - delta)
    {
      var start, end := filled[i].start + delta, Min(filled[i].end + delta, cap);
      ghost var before := out;
      if start < end {
        out := out + [Range(start, end)];
      }
      assert filled[..i + 1] == filled[..i] + [filled[i]];
      forall at ensures Covers(out, at) <==> at < cap && Covers(filled[..i + 1], at - delta) {
        CoversSnoc(filled[..i], filled[i], at - delta);
        if start < end {
          CoversSnoc(before, Range(start, end), at);
        }
      }
      i := i + 1;
    }
    assert filled[..i] == filled;
  }

  lemma ShiftRepresents(buf: seq<byte>, filled: seq<Range>, delta: nat, cap: nat, buf': seq<byte>, filled': seq<Range>)
    requires Inv(buf, filled) && |buf| <= cap
    requires |buf'| == Min(|buf| + delta, cap)
    requires forall at :: 0 <= at < |buf'| ==> buf'[at] == if at < delta then 0 else buf[at - delta]
    requires Normal(filled')
    requires forall at :: Covers(filled', at) <==> at < cap && Covers(filled, at - delta)
    ensures Inv(buf', filled')
    ensures Abs(buf', filled') == Shift(Abs(buf, filled), delta, cap)
  {
    ShiftKeepsInv(buf, filled, delta, cap, buf', filled');
    hide Abs, Shift, Inv, Covers;
    forall at ensures at in Abs(buf', filled').held <==> at in Shift(Abs(buf, filled), delta, cap).held {
      AbsAt(buf, filled, at - delta);
      AbsAt(buf', filled', at);
      ShiftAt(Abs(buf, filled), delta, cap, at);
    }
    forall at | at in Abs(buf', filled').held ensures Abs(buf', filled').held[at] == Shift(Abs(buf, filled), delta, cap).held[at] {
      AbsAt(buf, filled, at - delta);
      AbsAt(buf', filled', at);
      ShiftAt(Abs(buf, filled), delta, cap, at);
    }
    MapsEqual(Abs(buf', filled').held, Shift(Abs(buf, filled), delta, cap).held);
    Lengths(buf, filled, buf', filled', delta, cap);
  }

  lemma ShiftKeepsInv(buf: seq<byte>, filled: seq<Range>, delta: nat, cap: nat, buf': seq<byte>, filled': seq<Range>)
    requires Inv(buf, filled)
    requires |buf'| == Min(|buf| + delta, cap)
    requires forall at :: 0 <= at < |buf'| ==> buf'[at] == if at < delta then 0 else buf[at - delta]
    requires Normal(filled')
    requires forall at :: Covers(filled', at) <==> at < cap && Covers(filled, at - delta)
    ensures Inv(buf', filled')
  {
    hide Abs;
    forall i | 0 <= i < |filled'| ensures filled'[i].end <= |buf'| {
      assert filled'[i].start <= filled'[i].end - 1 < filled'[i].end;
      assert Covers(filled', filled'[i].end - 1);
      AbsAt(buf, filled, filled'[i].end - 1 - delta);
    }
    forall at | 0 <= at < |buf'| && !Covers(filled', at) ensures buf'[at] == 0 {
      assert at >= delta ==> !Covers(filled, at - delta);
    }
  }

  lemma Lengths(buf: seq<byte>, filled: seq<Range>, buf': seq<byte>, filled': seq<Range>, delta: nat, cap: nat)
    requires |buf'| == Min(|buf| + delta, cap)
    ensures Abs(buf', filled').len == Shift(Abs(buf, filled), delta, cap).len
  {
  }

  // ---------------------------------------------------------------------------------------------------------------
  // The program's own objects
  // ---------------------------------------------------------------------------------------------------------------

  class Stream {
    var base: u32
    var buf: seq<byte>
    var filled: seq<Range>
    var segments: nat
    var synBased: bool
    var done: bool
    ghost const key: Routed  // the key it is tracked under
    ghost var state: State   // what the fields stand for

    ghost predicate Valid()
      reads this
    {
      && Inv(buf, filled) && |buf| <= MAX_STREAM_BYTES
      && (done ==> buf == [] && filled == [])
      && state == State(base, Abs(buf, filled), segments, synBased, done)
    }

    constructor (base: u32, ghost key: Routed)
      ensures Valid() && state == Fresh(base) && this.key == key
    {
      this.key := key;
      this.base := base;
      buf, filled, segments, synBased, done := [], [], 0, false, false;
      state := Fresh(base);
    }

    method Finish()
      requires Valid()
      modifies this
      ensures Valid() && state == Finished(old(state))
    {
      done := true;
      buf := [];
      filled := [];
      state := Finished(state);
    }

    /** `rebase`. */
    method Rebase(delta: nat)
      requires Valid() && !done
      modifies `buf, `filled, `state
      ensures Valid() && state == old(state).(head := Shift(old(state).head, delta, MAX_STREAM_BYTES))
    {
      var keep := Max(MAX_STREAM_BYTES - delta, 0);
      var moved := seq(Min(delta, MAX_STREAM_BYTES), _ => 0) + buf[..Min(|buf|, keep)];
      var shifted := ShiftRanges(filled, delta, MAX_STREAM_BYTES);
      ShiftRepresents(buf, filled, delta, MAX_STREAM_BYTES, moved, shifted);
      buf := moved;
      filled := shifted;
      state := state.(head := Abs(buf, filled));
    }

    method Write(offset: nat, payload: seq<byte>) returns (conflict: bool)
      requires Valid() && !done
      modifies `buf, `filled, `state
      ensures Valid()
      ensures state == old(state).(head := WriteTo(old(state).head, offset, payload, MAX_STREAM_BYTES))
      ensures conflict <==> Conflicts(old(state).head, offset, payload, MAX_STREAM_BYTES)
    {
      buf, filled, conflict := HeadBuffer.Write(buf, filled, offset, payload, MAX_STREAM_BYTES);
      state := state.(head := Abs(buf, filled));
    }

    /** A SYN's effect on an open stream. */
    method Anchor(seqNo: u32)
      requires Valid() && !done
      modifies `base, `synBased, `state
      ensures Valid() && state == Anchored(old(state), seqNo)
    {
      base := WrapAdd(seqNo, 1);
      synBased := true;
      state := state.(base := base, synBased := true);
    }

    /** The counts the code reads off the range list are facts about the set of held positions. */
    lemma RangeFacts()
      requires Valid()
      ensures WellFormed(state.head)
      ensures |filled| == RangeTotal(state.head)
      ensures Contiguous(filled) == RunLength(state.head)
      ensures Contiguous(filled) <= |buf| && buf[..Contiguous(filled)] == Bytes(state.head, Contiguous(filled))
    {
      AbsKeys(buf, filled);
      RangeCount(filled, state.head.held.Keys);
      ContiguousIsPrefix(filled, state.head.held.Keys);
      PrefixUnique(state.head.held.Keys, Contiguous(filled), RunLength(state.head));
    }

    /** The part of `push` that may move the stream start. */
    method Seat(seqNo: u32)
      requires Valid() && !done
      modifies this
      ensures Valid() && state == Seated(old(state), seqNo) && !done
    {
      if !synBased {
        var back := WrapSub(base, seqNo);
        if 0 < back <= MAX_STREAM_BYTES {
          Rebase(back);
          base := seqNo;
          state := state.(base := seqNo);
        }
      }
    }

    /** The part of `push` that works on the segment's own stream. */
    method Accept(seqNo: u32, payload: seq<byte>, ports: Ports, wellFormed: seq<byte> -> bool)
      returns (out: Option<AppLayer>, conflict: bool)
      requires Valid() && !done
      modifies this
      ensures Valid() && WellFormed(old(state).head)
      ensures Outcome(state, out, conflict) == Feed(old(state), seqNo, payload, ports, wellFormed)
    {
      hide Inv, Abs, Shift, WriteTo, Conflicts, Judged;
      RangeFacts();
      ghost var s := state;
      Seat(seqNo);
      var offset := WrapSub(seqNo, base);
      assert offset == Offset(s, seqNo);
      if offset >= MAX_STREAM_BYTES {
        return None, false;
      }
      conflict := Write(offset, payload);
      segments := segments + 1;
      state := state.(segments := segments);
      assert state == Placed(s, seqNo, payload);
      out := Judge(ports, wellFormed);
    }

    /** Give up on too many ranges, or decode the run from 0 once a second segment is in. */
    method Judge(ports: Ports, wellFormed: seq<byte> -> bool) returns (out: Option<AppLayer>)
      requires Valid() && !done
      modifies this
      ensures Valid() && WellFormed(old(state).head)
      ensures (state, out) == Judged(old(state), ports, wellFormed)
    {
      hide Inv, Abs, AppFromPayload, RunLength, Bytes, RangeTotal;
      RangeFacts();
      out := None;
      if |filled| > MAX_RANGES {
        Finish();
        return;
      }
      if segments < 2 {
        return;
      }
      var contiguous := Contiguous(filled);
      if contiguous == 0 {
        return;
      }
      var app := AppFromPayload(ports, buf[..contiguous], true, wellFormed);
      assert app == Decoded(state.head, ports, wellFormed);
      if IsComplete(app) {
        Finish();
        return Some(app);
      }
      if contiguous >= MAX_STREAM_BYTES {
        Finish();
      }
    }
  }

  class Reassembler {
    var streams: map<Routed, Stream>
    var recovered: nat
    var droppedStreams: nat
    var conflictingOverlaps: nat
    ghost var table: Table  // what the fields stand for
    ghost var Repr: set<Stream>

    ghost predicate Valid()
      reads this, Repr
    {
      && table == Table(table.streams, recovered, droppedStreams, conflictingOverlaps)
      && table.streams.Keys == streams.Keys
      && (forall k :: k in streams ==> streams[k] in Repr && streams[k].key == k)
      && (forall k :: k in streams ==> streams[k].Valid() && streams[k].state == table.streams[k])
    }

    lemma TableSound()
      requires Valid()
      ensures Sound(table)
    {
      forall k | k in streams ensures WellFormed(streams[k].state.head) {
        streams[k].RangeFacts();
      }
    }

    constructor ()
      ensures Valid() && table == NO_STREAMS && Repr == {}
    {
      streams, recovered, droppedStreams, conflictingOverlaps := map[], 0, 0, 0;
      table := NO_STREAMS;
      Repr := {};
    }

    /** `entry(key).or_insert_with(Stream::new)`, for a key not tracked yet. */
    method Insert(k: Routed, base: u32) returns (s: Stream)
      requires Valid() && k !in streams
      modifies this
      ensures Valid() && Repr == old(Repr) + {s} && fresh(s)
      ensures k in streams && streams[k] == s && s.state == Fresh(base) && !s.done
      ensures table == old(table).(streams := old(table).streams[k := Fresh(base)])
    {
      s := new Stream(base, k);
      streams := streams[k := s];
      Repr := Repr + {s};
      table := table.(streams := table.streams[k := Fresh(base)]);
    }

    /** A closing, resetting or already understood packet finishes the stream it belongs to. */
    method Close(k: Routed)
      requires Valid()
      modifies `table, Repr
      ensures Valid()
      ensures table == if k in old(table).streams then old(table).(streams := old(table).streams[k := Finished(old(table).streams[k])])
                       else old(table)
    {
      hide Inv, Abs;
      if k in streams {
        var s := streams[k];
        s.Finish();
        table := table.(streams := table.streams[k := s.state]);
      }
    }

    /** `entry(key).or_insert_with(..)` on the SYN path, which has no cap. */
    method TrackSyn(k: Routed, seqNo: u32) returns (s: Stream)
      requires Valid()
      modifies this
      ensures Valid() && old(Repr) <= Repr && fresh(Repr - old(Repr))
      ensures k in streams && streams[k] == s
      ensures s.state == if k in old(table).streams then old(table).streams[k] else Fresh(WrapAdd(seqNo, 1))
      ensures table == old(table).(streams := old(table).streams[k := s.state])
    {
      hide Inv, Abs, Stream.Valid;
      if k in streams {
        s := streams[k];
        assert table.streams[k := s.state] == table.streams;
      } else {
        s := Insert(k, WrapAdd(seqNo, 1));
      }
    }

    /** A SYN seats its stream, tracking it if need be. */
    method Syn(k: Routed, seqNo: u32)
      requires Valid()
      modifies this, Repr
      ensures Valid() && fresh(Repr - old(Repr))
      ensures var s := if k in old(table).streams then old(table).streams[k] else Fresh(WrapAdd(seqNo, 1));
              table == old(table).(streams := old(table).streams[k := Anchored(s, seqNo)])
    {
      hide Inv, Abs, Stream.Valid, Anchored;
      var s := TrackSyn(k, seqNo);
      assert s in Repr;
      SeatOn(s, k, seqNo);
    }

    method SeatOn(s: Stream, k: Routed, seqNo: u32)
      requires Valid() && k in streams && streams[k] == s
      modifies `table, s
      ensures Valid() && table == old(table).(streams := old(table).streams[k := Anchored(old(s.state), seqNo)])
    {
      hide Inv, Abs;
      if s.done {
        assert table.streams[k := s.state] == table.streams;
      } else {
        s.Anchor(seqNo);
        table := table.(streams := table.streams[k := s.state]);
      }
    }

    /** Hand the segment to its own stream. */
    method Deliver(s: Stream, k: Routed, p: Segment, wellFormed: seq<byte> -> bool) returns (out: Option<AppLayer>, conflict: bool)
      requires Valid() && k in streams && streams[k] == s && !s.done
      modifies `table, s
      ensures Valid() && WellFormed(old(s.state).head)
      ensures Outcome(s.state, out, conflict) == Feed(old(s.state), p.seqNo, p.payload, PortsOf(p), wellFormed)
      ensures table == old(table).(streams := old(table).streams[k := s.state])
    {
      hide Feed, Inv, Abs;
      out, conflict := s.Accept(p.seqNo, p.payload, PortsOf(p), wellFormed);
      table := table.(streams := table.streams[k := s.state]);
    }

    /** The counters `push` moves. */
    method Count(conflict: bool, emitted: bool)
      requires Valid()
      modifies `recovered, `conflictingOverlaps, `table
      ensures Valid()
      ensures table == old(table).(conflicting := old(table).conflicting + (if conflict then 1 else 0),
                                   recovered := old(table).recovered + (if emitted then 1 else 0))
    {
      hide Inv, Abs;
      if conflict {
        conflictingOverlaps := conflictingOverlaps + 1;
      }
      if emitted {
        recovered := recovered + 1;
      }
      table := table.(conflicting := conflictingOverlaps, recovered := recovered);
    }

    /** The stream a data segment belongs to, tracked now if there is room; null otherwise. */
    method Track(p: Segment) returns (s: Stream?)
      requires Valid()
      modifies this
      ensures Valid() && fresh(Repr - old(Repr)) && old(Repr) <= Repr
      ensures s == null <==> Dropped(old(table), p)
      ensures s == null ==> table == old(table).(dropped := old(table).dropped + 1)
      ensures s != null ==> KeyOf(p) in streams && streams[KeyOf(p)] == s && s in Repr && s.state.done == s.done
                            && s.state == (if KeyOf(p) in old(table).streams then old(table).streams[KeyOf(p)] else Fresh(p.seqNo))
      ensures s != null ==> table == old(table).(streams := old(table).streams[KeyOf(p) := s.state])
    {
      hide Inv, Abs;
      var k := KeyOf(p);
      if k in streams {
        s := streams[k];
        assert table.streams[k := s.state] == table.streams;
        return;
      }
      assert |table.streams| == |table.streams.Keys| == |streams.Keys| == |streams|;
      if |streams| >= MAX_TRACKED_STREAMS {
        droppedStreams := droppedStreams + 1;
        table := table.(dropped := droppedStreams);
        return null;
      }
      s := Insert(k, p.seqNo);
    }

    /** `push`, for a TCP packet. */
    method Push(p: Segment, wellFormed: seq<byte> -> bool) returns (out: Option<AppLayer>)
      requires Valid()
      modifies this, Repr
      ensures Valid() && fresh(Repr - old(Repr))
      ensures Sound(old(table)) && (table, out) == Step(old(table), p, wellFormed)
    {
      hide Valid, Stream.Valid, Feed;
      TableSound();
      out := None;
      if Closes(p) {
        Close(KeyOf(p));
        return;
      }
      if p.syn {
        Syn(KeyOf(p), p.seqNo);
        return;
      }
      if p.payload == [] {
        return;
      }
      out := PushData(p, wellFormed);
    }

    /** `push` from where the packet is known to carry data for an open connection. */
    method PushData(p: Segment, wellFormed: seq<byte> -> bool) returns (out: Option<AppLayer>)
      requires Valid() && Sound(table) && !Closes(p) && !p.syn && p.payload != []
      modifies this, Repr
      ensures Valid() && fresh(Repr - old(Repr))
      ensures (table, out) == Step(old(table), p, wellFormed)
    {
      hide Valid, Stream.Valid, Feed, Sound;
      var s := Track(p);
      if s == null {
        return None;
      }
      out := PushTracked(s, p, wellFormed, old(table));
    }

    /** The rest of `push`, once the segment's stream is tracked. */
    method PushTracked(s: Stream, p: Segment, wellFormed: seq<byte> -> bool, ghost t: Table) returns (out: Option<AppLayer>)
      requires Valid() && KeyOf(p) in streams && streams[KeyOf(p)] == s && s.state.done == s.done
      requires !Closes(p) && !p.syn && p.payload != [] && Sound(t) && !Dropped(t, p)
      requires s.state == if KeyOf(p) in t.streams then t.streams[KeyOf(p)] else Fresh(p.seqNo)
      requires table == t.(streams := t.streams[KeyOf(p) := s.state])
      modifies `recovered, `conflictingOverlaps, `table, s
      ensures Valid() && (table, out) == Step(t, p, wellFormed)
    {
      hide Valid, Stream.Valid, Feed;
      if s.done {
        StepWhenDone(t, p, wellFormed, s.state);
        return None;
      }
      var conflict;
      out, conflict := Deliver(s, KeyOf(p), p, wellFormed);
      Count(conflict, out.Some?);
      assert table.streams == t.streams[KeyOf(p) := s.state];
    }
  }

  lemma StepWhenDone(t: Table, p: Segment, wellFormed: seq<byte> -> bool, s: State)
    requires !Closes(p) && !p.syn && p.payload != [] && Sound(t) && !Dropped(t, p)
    requires s == (if KeyOf(p) in t.streams then t.streams[KeyOf(p)] else Fresh(p.seqNo)) && s.done
    ensures Step(t, p, wellFormed) == (t.(streams := t.streams[KeyOf(p) := s]), None)
  {
  }
}
