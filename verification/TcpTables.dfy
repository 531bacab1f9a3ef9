/** What any run of packets, of any number of interleaved connections, leaves in the stream table. */
module TcpTables {
  import opened Wrappers
  import opened Words
  import opened HeadBuffer
  import opened FlowKeys
  import opened Apps
  import opened TcpReassembly
  import opened TcpRuns
  import opened TcpSplit

  datatype TableRun = TableRun(table: Table, outs: seq<Option<AppLayer>>)

  ghost function RunTable(ps: seq<Segment>, wellFormed: seq<byte> -> bool): (r: TableRun)
    ensures Sound(r.table) && |r.outs| == |ps|
  {
    if ps == [] then TableRun(NO_STREAMS, [])
    else
      var r := RunTable(ps[..|ps| - 1], wellFormed);
      var (table, out) := Step(r.table, ps[|ps| - 1], wellFormed);
      TableRun(table, r.outs + [out])
  }

  /** The packets of one direction, in arrival order. */
  ghost function Of(ps: seq<Segment>, k: Routed): seq<Segment> {
    if ps == [] then []
    else if KeyOf(ps[|ps| - 1]) == k then Of(ps[..|ps| - 1], k) + [ps[|ps| - 1]]
    else Of(ps[..|ps| - 1], k)
  }

  /** What came out on the packets of one direction. */
  ghost function OutsOf(ps: seq<Segment>, outs: seq<Option<AppLayer>>, k: Routed): (r: seq<Option<AppLayer>>)
    requires |outs| == |ps|
    ensures |r| == |Of(ps, k)|
  {
    if ps == [] then []
    else if KeyOf(ps[|ps| - 1]) == k then OutsOf(ps[..|ps| - 1], outs[..|ps| - 1], k) + [outs[|ps| - 1]]
    else OutsOf(ps[..|ps| - 1], outs[..|ps| - 1], k)
  }

  /** Packets belong to one tracked direction exactly when they go from the same endpoint to the same endpoint. */
  lemma OneDirection(p: Segment, q: Segment)
    ensures KeyOf(p) == KeyOf(q) <==> p.src == q.src && p.dst == q.dst
    ensures KeyOf(p).key.protocol == 6 && {KeyOf(p).key.a, KeyOf(p).key.b} == {p.src, p.dst}
  {
    CanonicalIsInjective(p.src, p.dst, 6, q.src, q.dst, 6);
  }

  ghost function Entry(t: Table, k: Routed): Option<State> {
    if k in t.streams then Some(t.streams[k]) else None
  }

  ghost predicate OpensOrFeeds(p: Segment) {
    !Closes(p) && !p.syn && p.payload != []
  }

  /** The last packet is data for a direction that is not tracked, at a full table. */
  ghost predicate RefusedLast(ps: seq<Segment>, wellFormed: seq<byte> -> bool)
    requires ps != []
  {
    OpensOrFeeds(ps[|ps| - 1]) && Dropped(RunTable(ps[..|ps| - 1], wellFormed).table, ps[|ps| - 1])
  }

  /** The packets of one direction without those a full table refused. */
  ghost function Kept(ps: seq<Segment>, k: Routed, wellFormed: seq<byte> -> bool): seq<Segment> {
    if ps == [] then []
    else if KeyOf(ps[|ps| - 1]) == k && !RefusedLast(ps, wellFormed) then Kept(ps[..|ps| - 1], k, wellFormed) + [ps[|ps| - 1]]
    else Kept(ps[..|ps| - 1], k, wellFormed)
  }

  /** What came out on those packets. */
  ghost function KeptOuts(ps: seq<Segment>, outs: seq<Option<AppLayer>>, k: Routed, wellFormed: seq<byte> -> bool): seq<Option<AppLayer>>
    requires |outs| == |ps|
  {
    if ps == [] then []
    else
      var n := |ps| - 1;
      if KeyOf(ps[n]) == k && !RefusedLast(ps, wellFormed) then KeptOuts(ps[..n], outs[..n], k, wellFormed) + [outs[n]]
      else KeptOuts(ps[..n], outs[..n], k, wellFormed)
  }

  /**
   Directions do not interfere. In any run, a direction is in exactly the state, and brought out exactly the messages,
   that its own packets alone produce, without those a full table refused; and on those nothing came out.
   */
  lemma {:induction false} Isolation(ps: seq<Segment>, k: Routed, wellFormed: seq<byte> -> bool)
    ensures Entry(RunTable(ps, wellFormed).table, k) == RunOf(Kept(ps, k, wellFormed), wellFormed).stream
    ensures KeptOuts(ps, RunTable(ps, wellFormed).outs, k, wellFormed) == RunOf(Kept(ps, k, wellFormed), wellFormed).outs
    ensures ps != [] && RefusedLast(ps, wellFormed) ==> RunTable(ps, wellFormed).outs[|ps| - 1].None?
    decreases |ps|
  {
    hide Step, LifeStep, Sound, RefusedLast;
    if ps != [] {
      var before, p := ps[..|ps| - 1], ps[|ps| - 1];
      Isolation(before, k, wellFormed);
      assert RunTable(ps, wellFormed).outs[..|ps| - 1] == RunTable(before, wellFormed).outs;
      LastStep(ps, k, wellFormed);
      var kept := Kept(before, k, wellFormed);
      assert (kept + [p])[..|kept|] == kept;
    }
  }

  /** What the last packet does to a direction: nothing, if it is another's or refused; else what it does alone. */
  lemma LastStep(ps: seq<Segment>, k: Routed, wellFormed: seq<byte> -> bool)
    requires ps != []
    ensures var t, p := RunTable(ps[..|ps| - 1], wellFormed).table, ps[|ps| - 1];
            var (t', out) := Step(t, p, wellFormed);
            && Healthy(Entry(t, k))
            && (RefusedLast(ps, wellFormed) ==> out.None?)
            && (if KeyOf(p) == k && !RefusedLast(ps, wellFormed) then
                  Entry(t', k) == LifeStep(Entry(t, k), p, wellFormed).stream && out == LifeStep(Entry(t, k), p, wellFormed).emitted
                else Entry(t', k) == Entry(t, k))
  {
    var t, p := RunTable(ps[..|ps| - 1], wellFormed).table, ps[|ps| - 1];
    if RefusedLast(ps, wellFormed) {
      StepRefused(t, p, wellFormed);
    } else if KeyOf(p) == k {
      StepHere(t, p, wellFormed);
    }
    hide Step, LifeStep;
    if KeyOf(p) != k {
      StepElsewhere(t, p, k, wellFormed);
    }
  }

  lemma StepRefused(t: Table, p: Segment, wellFormed: seq<byte> -> bool)
    requires Sound(t) && OpensOrFeeds(p) && Dropped(t, p)
    ensures Step(t, p, wellFormed) == (t.(dropped := t.dropped + 1), None)
  {
  }

  /** No data packet of this direction met a full table while the direction was untracked. */
  ghost predicate NeverDropped(ps: seq<Segment>, k: Routed, wellFormed: seq<byte> -> bool) {
    ps != [] ==> NeverDropped(ps[..|ps| - 1], k, wellFormed) && (KeyOf(ps[|ps| - 1]) == k ==> !RefusedLast(ps, wellFormed))
  }

  lemma {:induction false} NothingRefused(ps: seq<Segment>, outs: seq<Option<AppLayer>>, k: Routed, wellFormed: seq<byte> -> bool)
    requires NeverDropped(ps, k, wellFormed) && |outs| == |ps|
    ensures Kept(ps, k, wellFormed) == Of(ps, k) && KeptOuts(ps, outs, k, wellFormed) == OutsOf(ps, outs, k)
    decreases |ps|
  {
    hide RefusedLast;
    if ps != [] {
      NothingRefused(ps[..|ps| - 1], outs[..|ps| - 1], k, wellFormed);
    }
  }

  /** A direction that was never refused is what all its own packets produce. */
  lemma {:induction false} IsolationUnrefused(ps: seq<Segment>, k: Routed, wellFormed: seq<byte> -> bool)
    requires NeverDropped(ps, k, wellFormed)
    ensures Entry(RunTable(ps, wellFormed).table, k) == RunOf(Of(ps, k), wellFormed).stream
    ensures OutsOf(ps, RunTable(ps, wellFormed).outs, k) == RunOf(Of(ps, k), wellFormed).outs
  {
    hide NeverDropped, Kept, KeptOuts, RunTable, RunOf;
    Isolation(ps, k, wellFormed);
    NothingRefused(ps, RunTable(ps, wellFormed).outs, k, wellFormed);
  }

  lemma StepElsewhere(t: Table, p: Segment, k: Routed, wellFormed: seq<byte> -> bool)
    requires Sound(t) && KeyOf(p) != k
    ensures Entry(Step(t, p, wellFormed).0, k) == Entry(t, k)
  {
    hide Feed;
  }

  lemma StepHere(t: Table, p: Segment, wellFormed: seq<byte> -> bool)
    requires Sound(t) && (OpensOrFeeds(p) ==> !Dropped(t, p))
    ensures Healthy(Entry(t, KeyOf(p)))
    ensures var l := LifeStep(Entry(t, KeyOf(p)), p, wellFormed);
            Entry(Step(t, p, wellFormed).0, KeyOf(p)) == l.stream && Step(t, p, wellFormed).1 == l.emitted
  {
    hide Feed;
  }

  /** A direction whose first packet is a SYN is tracked from then on, so nothing of it is ever dropped. */
  lemma {:induction false} SynFirstNeverDropped(ps: seq<Segment>, k: Routed, wellFormed: seq<byte> -> bool)
    requires Of(ps, k) != [] && Of(ps, k)[0].syn && !Closes(Of(ps, k)[0])
    ensures NeverDropped(ps, k, wellFormed) && k in RunTable(ps, wellFormed).table.streams
    decreases |ps|
  {
    var before, p := ps[..|ps| - 1], ps[|ps| - 1];
    StaysTracked(RunTable(before, wellFormed).table, p, k, wellFormed);
    if Of(before, k) != [] {
      assert Of(ps, k)[0] == Of(before, k)[0];
      SynFirstNeverDropped(before, k, wellFormed);
    } else {
      assert Of(ps, k) == [] + [p];
      NothingOfIt(before, k, wellFormed);
      SynTracks(RunTable(before, wellFormed).table, p, wellFormed);
    }
    hide Step, Sound;
  }

  lemma {:induction false} NothingOfIt(ps: seq<Segment>, k: Routed, wellFormed: seq<byte> -> bool)
    requires Of(ps, k) == []
    ensures NeverDropped(ps, k, wellFormed)
    decreases |ps|
  {
    if ps != [] {
      assert KeyOf(ps[|ps| - 1]) != k;
      NothingOfIt(ps[..|ps| - 1], k, wellFormed);
    }
  }

  lemma SynTracks(t: Table, p: Segment, wellFormed: seq<byte> -> bool)
    requires Sound(t) && p.syn && !Closes(p)
    ensures KeyOf(p) in Step(t, p, wellFormed).0.streams
  {
  }

  lemma StaysTracked(t: Table, p: Segment, k: Routed, wellFormed: seq<byte> -> bool)
    requires Sound(t)
    ensures k in t.streams ==> k in Step(t, p, wellFormed).0.streams
  {
    hide Feed;
  }

  /** Split invariance among any other traffic: the direction's own packets are a SYN and slices of one text. */
  lemma {:induction false} SplitInTraffic(ps: seq<Segment>, k: Routed, d: Sender, slices: seq<Slice>)
    requires Sent(d, Of(ps, k), slices) && InText(d, slices)
    ensures OutsExpected(OutsOf(ps, RunTable(ps, d.wellFormed).outs, k), d, slices)
  {
    SynFirstNeverDropped(ps, k, d.wellFormed);
    IsolationUnrefused(ps, k, d.wellFormed);
    SplitInvariance(d, Of(ps, k), slices);
    hide NeverDropped, Sent;
  }

  // ---------------------------------------------------------------------------------------------------------------
  // One message a direction
  // ---------------------------------------------------------------------------------------------------------------

  ghost predicate TrackedDone(t: Table, k: Routed) {
    k in t.streams && t.streams[k].done
  }

  /** A finished stream stays finished and silent, and a message comes out only as its stream finishes. */
  lemma StepDone(t: Table, p: Segment, k: Routed, wellFormed: seq<byte> -> bool)
    requires Sound(t)
    ensures var (t', out) := Step(t, p, wellFormed);
            && (TrackedDone(t, k) ==> TrackedDone(t', k))
            && (TrackedDone(t, KeyOf(p)) ==> out.None?)
            && (out.Some? ==> TrackedDone(t', KeyOf(p)))
  {
    hide Placed, Seated, Offset, Decoded, RunLength, RangeTotal;
  }

  /** Wherever a message came out, its direction is tracked and finished from then on. */
  lemma {:induction false} EmittedDone(ps: seq<Segment>, wellFormed: seq<byte> -> bool, i: nat)
    requires i < |ps| && RunTable(ps, wellFormed).outs[i].Some?
    ensures TrackedDone(RunTable(ps, wellFormed).table, KeyOf(ps[i]))
    decreases |ps|
  {
    hide Step, TrackedDone, Sound;
    var n := |ps| - 1;
    StepDone(RunTable(ps[..n], wellFormed).table, ps[n], KeyOf(ps[i]), wellFormed);
    if i < n {
      EmittedDone(ps[..n], wellFormed, i);
    }
  }

  /** In any run of the table, a direction brings out at most one message. */
  lemma {:induction false} OneMessagePerDirection(ps: seq<Segment>, wellFormed: seq<byte> -> bool, i: nat, j: nat)
    requires i < j < |ps| && KeyOf(ps[i]) == KeyOf(ps[j]) && RunTable(ps, wellFormed).outs[i].Some?
    ensures RunTable(ps, wellFormed).outs[j].None?
    decreases |ps|
  {
    hide Step, TrackedDone, Sound;
    var n := |ps| - 1;
    if j < n {
      OneMessagePerDirection(ps[..n], wellFormed, i, j);
    } else {
      EmittedDone(ps[..n], wellFormed, i);
      StepDone(RunTable(ps[..n], wellFormed).table, ps[n], KeyOf(ps[i]), wellFormed);
    }
  }
}
